/** The JavaScript string operations the front-ends rely on, written out on
    `seq<char>`: `startsWith`, `replace` with a string pattern, `split` on one
    character, `trim`, `substring(0, n)`, the markup-stripping regular
    expression `/[#*`>]/g`, and `Number.prototype.toString` on naturals. */
module Text {

  predicate StartsWith(s: string, prefix: string) {
    |prefix| <= |s| && s[..|prefix|] == prefix
  }

  predicate EndsWith(s: string, suffix: string) {
    |suffix| <= |s| && s[|s| - |suffix|..] == suffix
  }

  /** `pat` occurs in `s` at index `k`. */
  predicate OccursAt(s: string, pat: string, k: int) {
    0 <= k && k + |pat| <= |s| && s[k..k + |pat|] == pat
  }

  // ---------------------------------------------------------------------------
  // `s.replace(pat, '')` with a string pattern: only the first occurrence goes.

  function RemoveFirst(s: string, pat: string): (r: string)
    ensures |r| <= |s|
    decreases |s|
  {
    if StartsWith(s, pat) then s[|pat|..]
    else if |s| == 0 then s
    else [s[0]] + RemoveFirst(s[1..], pat)
  }

  /** When `s` starts with `pat`, the first occurrence is the leading one. */
  lemma RemoveFirstPrefix(s: string, pat: string)
    requires StartsWith(s, pat)
    ensures RemoveFirst(s, pat) == s[|pat|..]
  {
  }

  /** Only the first occurrence, at `k`, is removed; the text around it stays. */
  lemma {:induction false} RemoveFirstAt(s: string, pat: string, k: int)
    requires OccursAt(s, pat, k)
    requires forall j :: 0 <= j < k ==> !OccursAt(s, pat, j)
    ensures RemoveFirst(s, pat) == s[..k] + s[k + |pat|..]
    decreases k
  {
    if k == 0 {
      assert StartsWith(s, pat);
    } else {
      assert !OccursAt(s, pat, 0);
      assert !StartsWith(s, pat);
      forall j | 0 <= j < k - 1
        ensures !OccursAt(s[1..], pat, j)
      {
        assert !OccursAt(s, pat, j + 1);
        assert s[1..][j..j + |pat|] == s[j + 1..j + 1 + |pat|];
      }
      assert s[1..][k - 1..k - 1 + |pat|] == s[k..k + |pat|];
      RemoveFirstAt(s[1..], pat, k - 1);
      assert s[..k] == [s[0]] + s[1..][..k - 1];
      assert s[k + |pat|..] == s[1..][k - 1 + |pat|..];
    }
  }

  /** Without an occurrence, `replace` returns the string unchanged. */
  lemma {:induction false} RemoveFirstAbsent(s: string, pat: string)
    requires forall j :: !OccursAt(s, pat, j)
    ensures RemoveFirst(s, pat) == s
    decreases |s|
  {
    assert !OccursAt(s, pat, 0);
    if |s| > 0 {
      forall j ensures !OccursAt(s[1..], pat, j) {
        if 0 <= j && j + |pat| <= |s| - 1 {
          assert s[1..][j..j + |pat|] == s[j + 1..j + 1 + |pat|];
          assert !OccursAt(s, pat, j + 1);
        }
      }
      RemoveFirstAbsent(s[1..], pat);
    }
  }

  // ---------------------------------------------------------------------------
  // `s.split(sep)` for a one-character separator, and its inverse `join`.

  function Split(s: string, sep: char): (parts: seq<string>)
    ensures |parts| >= 1
    decreases |s|
  {
    if |s| == 0 then [""]
    else
      var rest := Split(s[1..], sep);
      if s[0] == sep then [""] + rest
      else [[s[0]] + rest[0]] + rest[1..]
  }

  function Join(parts: seq<string>, sep: char): string
    decreases |parts|
  {
    if |parts| == 0 then ""
    else if |parts| == 1 then parts[0]
    else parts[0] + [sep] + Join(parts[1..], sep)
  }

  function Count(s: string, c: char): nat
    decreases |s|
  {
    if |s| == 0 then 0 else (if s[0] == c then 1 else 0) + Count(s[1..], c)
  }

  /** One piece more than there are separators. */
  lemma {:induction false} SplitCount(s: string, sep: char)
    ensures |Split(s, sep)| == Count(s, sep) + 1
    decreases |s|
  {
    if |s| > 0 {
      SplitCount(s[1..], sep);
    }
  }

  /** No piece contains the separator. */
  lemma {:induction false} SplitPiecesFree(s: string, sep: char)
    ensures forall i :: 0 <= i < |Split(s, sep)| ==> sep !in Split(s, sep)[i]
    decreases |s|
  {
    if |s| > 0 {
      SplitPiecesFree(s[1..], sep);
    }
  }

  /** Joining the pieces with the separator gives the string back. */
  lemma {:induction false} SplitJoin(s: string, sep: char)
    ensures Join(Split(s, sep), sep) == s
    decreases |s|
  {
    if |s| > 0 {
      var rest := Split(s[1..], sep);
      SplitJoin(s[1..], sep);
      if s[0] == sep {
        assert Split(s, sep) == [""] + rest;
        assert Join([""] + rest, sep) == "" + [sep] + Join(rest, sep);
      } else {
        assert Split(s, sep) == [[s[0]] + rest[0]] + rest[1..];
        if |rest| == 1 {
          assert Join(rest, sep) == rest[0];
        } else {
          assert Join(rest, sep) == rest[0] + [sep] + Join(rest[1..], sep);
          assert ([[s[0]] + rest[0]] + rest[1..])[1..] == rest[1..];
        }
      }
    }
  }

  /** A string without the separator is a single piece. */
  lemma {:induction false} SplitWithoutSep(s: string, sep: char)
    requires sep !in s
    ensures Split(s, sep) == [s]
    decreases |s|
  {
    if |s| > 0 {
      assert sep !in s[1..] by {
        forall i | 0 <= i < |s[1..]| ensures s[1..][i] != sep {
          assert s[1..][i] == s[i + 1];
        }
      }
      SplitWithoutSep(s[1..], sep);
      assert Split(s, sep) == [[s[0]] + s[1..]];
      assert [s[0]] + s[1..] == s;
    }
  }

  /** Splitting at one separator splits the list of pieces there. */
  lemma {:induction false} SplitAtSep(a: string, b: string, sep: char)
    ensures Split(a + [sep] + b, sep) == Split(a, sep) + Split(b, sep)
    decreases |a|
  {
    var s := a + [sep] + b;
    if |a| == 0 {
      assert s == [sep] + b;
      assert s[1..] == b;
      assert Split(s, sep) == [""] + Split(b, sep);
    } else {
      assert s[0] == a[0];
      assert s[1..] == a[1..] + [sep] + b;
      SplitAtSep(a[1..], b, sep);
      SplitStep(a, sep);
      SplitStep(s, sep);
    }
  }

  /** One unfolding of Split, stated on the head character. */
  lemma SplitStep(s: string, sep: char)
    requires |s| > 0
    ensures s[0] == sep ==> Split(s, sep) == [""] + Split(s[1..], sep)
    ensures s[0] != sep ==> Split(s, sep) == [[s[0]] + Split(s[1..], sep)[0]] + Split(s[1..], sep)[1..]
  {
  }

  /** Splitting a join of separator-free pieces gives the pieces back. */
  lemma {:induction false} JoinSplit(parts: seq<string>, sep: char)
    requires |parts| >= 1
    requires forall i :: 0 <= i < |parts| ==> sep !in parts[i]
    ensures Split(Join(parts, sep), sep) == parts
    decreases |parts|
  {
    SplitWithoutSep(parts[0], sep);
    if |parts| > 1 {
      JoinSplit(parts[1..], sep);
      SplitAtSep(parts[0], Join(parts[1..], sep), sep);
      assert parts == [parts[0]] + parts[1..];
    }
  }

  // ---------------------------------------------------------------------------
  // `s.trim()`: the white space and line terminators of ECMAScript.

  predicate IsJsWhitespace(c: char) {
    || c == '\t' || c == '\n' || c == '\U{000B}' || c == '\U{000C}' || c == '\r'
    || c == ' ' || c == '\U{00A0}' || c == '\U{1680}'
    || ('\U{2000}' <= c <= '\U{200A}')
    || c == '\U{2028}' || c == '\U{2029}' || c == '\U{202F}' || c == '\U{205F}'
    || c == '\U{3000}' || c == '\U{FEFF}'
  }

  /** Every character is white space (so `s.trim() === ''`). */
  predicate IsBlank(s: string) {
    forall i :: 0 <= i < |s| ==> IsJsWhitespace(s[i])
  }

  function TrimStart(s: string): string
    decreases |s|
  {
    if |s| > 0 && IsJsWhitespace(s[0]) then TrimStart(s[1..]) else s
  }

  function TrimEnd(s: string): string
    decreases |s|
  {
    if |s| > 0 && IsJsWhitespace(s[|s| - 1]) then TrimEnd(s[..|s| - 1]) else s
  }

  function Trim(s: string): string {
    TrimEnd(TrimStart(s))
  }

  lemma {:induction false} TrimStartBlank(s: string)
    ensures TrimStart(s) == "" <==> IsBlank(s)
    ensures TrimStart(s) != "" ==> !IsJsWhitespace(TrimStart(s)[0])
    decreases |s|
  {
    if |s| > 0 && IsJsWhitespace(s[0]) {
      TrimStartBlank(s[1..]);
      if IsBlank(s[1..]) {
        forall i | 0 <= i < |s| ensures IsJsWhitespace(s[i]) {
          if i > 0 { assert s[i] == s[1..][i - 1]; }
        }
      }
      if IsBlank(s) {
        forall i | 0 <= i < |s[1..]| ensures IsJsWhitespace(s[1..][i]) {
          assert s[1..][i] == s[i + 1];
        }
      }
    }
  }

  lemma {:induction false} TrimEndKeepsFirst(s: string)
    requires |s| > 0 && !IsJsWhitespace(s[0])
    ensures TrimEnd(s) != ""
    decreases |s|
  {
    if IsJsWhitespace(s[|s| - 1]) {
      TrimEndKeepsFirst(s[..|s| - 1]);
    }
  }

  /** `s.trim() === ''` exactly when every character of `s` is white space. */
  lemma TrimEmptyIffBlank(s: string)
    ensures Trim(s) == "" <==> IsBlank(s)
  {
    TrimStartBlank(s);
    if TrimStart(s) != "" {
      TrimEndKeepsFirst(TrimStart(s));
    }
  }

  // ---------------------------------------------------------------------------
  // The excerpt rule shared by the editor and the Markdown loader:
  // `text.substring(0, 150).replace(/[#*`>]/g, '') + '...'`.

  /** `s.substring(0, n)`: the first `n` characters, or all of a shorter `s`. */
  function Take(s: string, n: nat): (r: string)
    ensures |r| <= n && |r| <= |s|
    ensures |r| == if |s| <= n then |s| else n
    ensures r == s[..|r|]
  {
    if |s| <= n then s else s[..n]
  }

  predicate IsMarkup(c: char) {
    c == '#' || c == '*' || c == '`' || c == '>'
  }

  predicate NoMarkup(s: string) {
    forall i :: 0 <= i < |s| ==> !IsMarkup(s[i])
  }

  function StripMarkup(s: string): string
    decreases |s|
  {
    if |s| == 0 then ""
    else if IsMarkup(s[0]) then StripMarkup(s[1..])
    else [s[0]] + StripMarkup(s[1..])
  }

  const ExcerptLength: nat := 150
  const Ellipsis: string := "..."

  function Excerpt(text: string): string {
    StripMarkup(Take(text, ExcerptLength)) + Ellipsis
  }

  /** Stripping removes every markup character and nothing else, and never
      lengthens the text. */
  lemma {:induction false} StripMarkupSound(s: string)
    ensures NoMarkup(StripMarkup(s))
    ensures |StripMarkup(s)| <= |s|
    ensures |StripMarkup(s)| == |s| - CountMarkup(s)
    decreases |s|
  {
    if |s| > 0 {
      StripMarkupSound(s[1..]);
    }
  }

  function CountMarkup(s: string): nat
    decreases |s|
  {
    if |s| == 0 then 0 else (if IsMarkup(s[0]) then 1 else 0) + CountMarkup(s[1..])
  }

  /** Text without markup passes through unchanged. */
  lemma {:induction false} StripMarkupIdentity(s: string)
    requires NoMarkup(s)
    ensures StripMarkup(s) == s
    decreases |s|
  {
    if |s| > 0 {
      assert !IsMarkup(s[0]);
      assert NoMarkup(s[1..]) by {
        forall i | 0 <= i < |s[1..]| ensures !IsMarkup(s[1..][i]) {
          assert s[1..][i] == s[i + 1];
        }
      }
      StripMarkupIdentity(s[1..]);
    }
  }

  /** Stripping works character by character, so the kept characters stay in
      their original order. */
  lemma {:induction false} StripMarkupConcat(a: string, b: string)
    ensures StripMarkup(a + b) == StripMarkup(a) + StripMarkup(b)
    decreases |a|
  {
    if |a| > 0 {
      assert (a + b)[1..] == a[1..] + b;
      StripMarkupConcat(a[1..], b);
    } else {
      assert a + b == b;
    }
  }

  /** The excerpt is at most 153 characters, ends in "...", and what comes
      before the "..." is the first 150 characters with the markup removed. */
  lemma ExcerptShape(text: string)
    ensures var e := Excerpt(text);
      && |e| <= ExcerptLength + |Ellipsis|
      && EndsWith(e, Ellipsis)
      && e[..|e| - |Ellipsis|] == StripMarkup(Take(text, ExcerptLength))
      && NoMarkup(e[..|e| - |Ellipsis|])
  {
    var body := StripMarkup(Take(text, ExcerptLength));
    StripMarkupSound(Take(text, ExcerptLength));
    assert (body + Ellipsis)[..|body|] == body;
    assert (body + Ellipsis)[|body|..] == Ellipsis;
  }

  /** A short excerpt-free text is kept whole. */
  lemma ExcerptOfPlainText(text: string)
    requires |text| <= ExcerptLength && NoMarkup(text)
    ensures Excerpt(text) == text + Ellipsis
  {
    StripMarkupIdentity(text);
  }

  // ---------------------------------------------------------------------------
  // `n.toString()` for natural numbers, and its inverse.

  function DigitChar(d: nat): (c: char)
    requires d < 10
    ensures '0' <= c <= '9'
  {
    ('0' as int + d) as char
  }

  function Decimal(n: nat): (s: string)
    ensures |s| >= 1
    ensures forall i :: 0 <= i < |s| ==> '0' <= s[i] <= '9'
    decreases n
  {
    if n < 10 then [DigitChar(n)] else Decimal(n / 10) + [DigitChar(n % 10)]
  }

  /** The number a string of decimal digits denotes. */
  function DigitsValue(s: string): int
    decreases |s|
  {
    if |s| == 0 then 0
    else DigitsValue(s[..|s| - 1]) * 10 + (s[|s| - 1] as int - '0' as int)
  }

  lemma {:induction false} DecimalRoundTrip(n: nat)
    ensures DigitsValue(Decimal(n)) == n
    decreases n
  {
    var s := Decimal(n);
    if n >= 10 {
      DecimalRoundTrip(n / 10);
      assert s[..|s| - 1] == Decimal(n / 10);
    }
  }

  /** Distinct numbers print differently. */
  lemma DecimalInjective(m: nat, n: nat)
    ensures Decimal(m) == Decimal(n) <==> m == n
  {
    if Decimal(m) == Decimal(n) {
      DecimalRoundTrip(m);
      DecimalRoundTrip(n);
    }
  }
}
