/**
 * String helpers that mirror the Python built-ins the cloud-init modules use:
 * `str.join`, `str.replace`, `str.lower` (ASCII part), `re.escape`, the `\s`
 * character class, and Python's code-point ordering of strings.
 */
module Text {
  import opened Wrappers

  /** `sep.join(parts)` */
  function Join(sep: string, parts: seq<string>): string
  {
    if |parts| == 0 then ""
    else if |parts| == 1 then parts[0]
    else parts[0] + sep + Join(sep, parts[1..])
  }

  /** `sub` occurs somewhere in `s` (Python's `sub in s`). */
  predicate Contains(s: string, sub: string)
  {
    exists i :: 0 <= i <= |s| && OccursAt(s, sub, i)
  }

  /** `sub` occurs in `s` starting at index `i`. */
  predicate OccursAt(s: string, sub: string, i: int)
  {
    0 <= i && i + |sub| <= |s| && s[i..i + |sub|] == sub
  }

  // ---------------------------------------------------------------------------
  // str.replace

  /** `s.replace("", rep)`: Python inserts `rep` before every character and at the end. */
  function InsertEverywhere(s: string, rep: string): (r: string)
    ensures |r| == |s| + (|s| + 1) * |rep|
  {
    if s == [] then rep else rep + [s[0]] + InsertEverywhere(s[1..], rep)
  }

  /**
   * `s.replace(pat, rep)`: every non-overlapping occurrence of `pat`, scanning
   * from the left, is replaced by `rep`.
   */
  function Replace(s: string, pat: string, rep: string): string
    decreases |s|
  {
    if pat == [] then InsertEverywhere(s, rep)
    else if |s| < |pat| then s
    else if s[..|pat|] == pat then rep + Replace(s[|pat|..], pat, rep)
    else [s[0]] + Replace(s[1..], pat, rep)
  }

  /** An occurrence in the tail of `s` is an occurrence in `s`. */
  lemma ContainsTail(s: string, sub: string)
    requires |s| > 0
    ensures Contains(s[1..], sub) ==> Contains(s, sub)
  {
    if Contains(s[1..], sub) {
      var i :| 0 <= i <= |s[1..]| && OccursAt(s[1..], sub, i);
      assert s[1..][i..i + |sub|] == s[i + 1..i + 1 + |sub|];
      assert OccursAt(s, sub, i + 1);
    }
  }

  /** Replacing a substring that does not occur leaves the string unchanged. */
  lemma {:induction false} ReplaceAbsent(s: string, pat: string, rep: string)
    requires pat != [] && !Contains(s, pat)
    ensures Replace(s, pat, rep) == s
  {
    if |s| >= |pat| {
      assert s[..|pat|] != pat by {
        assert s[0..0 + |pat|] == s[..|pat|];
        assert !OccursAt(s, pat, 0);
      }
      ContainsTail(s, pat);
      ReplaceAbsent(s[1..], pat, rep);
      assert s == [s[0]] + s[1..];
    }
  }

  /** No character of `x` is a character of `chars`. */
  predicate NoneIn(x: string, chars: string)
  {
    forall j :: 0 <= j < |x| ==> x[j] !in chars
  }

  /**
   * Whatever prefix of the replaced text is free of characters of `rep` was
   * copied verbatim from the original text.
   */
  lemma {:induction false} ReplacePrefixCopied(t: string, pat: string, rep: string, k: nat)
    requires pat != [] && rep != []
    requires k <= |Replace(t, pat, rep)|
    ensures NoneIn(Replace(t, pat, rep)[..k], rep) ==> k <= |t| && Replace(t, pat, rep)[..k] == t[..k]
    decreases |t|
  {
    var r := Replace(t, pat, rep);
    if |t| < |pat| {
    } else if t[..|pat|] == pat {
      if k > 0 {
        assert r[..k][0] == rep[0] && rep[0] in rep;
      }
    } else if k > 0 {
      var rest := Replace(t[1..], pat, rep);
      assert r == [t[0]] + rest;
      assert r[..k] == [t[0]] + rest[..k - 1];
      assert NoneIn(r[..k], rep) ==> NoneIn(rest[..k - 1], rep) by {
        if NoneIn(r[..k], rep) {
          var front, tail := r[..k], rest[..k - 1];
          forall j | 0 <= j < k - 1 ensures tail[j] !in rep {
            assert tail[j] == front[j + 1];
          }
        }
      }
      ReplacePrefixCopied(t[1..], pat, rep, k - 1);
    }
  }

  /**
   * Redaction is complete: when `rep` shares no character with the secret
   * `pat`, the secret no longer occurs in `s.replace(pat, rep)`.
   */
  lemma {:induction false} ReplaceHidesSecret(s: string, pat: string, rep: string)
    requires pat != [] && rep != []
    requires forall c :: c in rep ==> c !in pat
    ensures !Contains(Replace(s, pat, rep), pat)
    decreases |s|
  {
    var n := |pat|;
    if |s| < n {
      assert Replace(s, pat, rep) == s;
    } else if s[..n] == pat {
      ReplaceHidesSecret(s[n..], pat, rep);
      NoOccurrenceAfterRep(rep, Replace(s[n..], pat, rep), pat);
    } else {
      var rest := Replace(s[1..], pat, rep);
      ReplaceHidesSecret(s[1..], pat, rep);
      var r := Replace(s, pat, rep);
      assert r == [s[0]] + rest;
      forall i | 0 <= i <= |r| ensures !OccursAt(r, pat, i) {
        if i == 0 {
          if n <= |r| {
            assert NoneIn(pat, rep);
            ReplacePrefixCopied(s, pat, rep, n);
            assert r[0..0 + n] == r[..n];
          }
        } else if i + n <= |r| {
          assert r[i..i + n] == rest[i - 1..i - 1 + n];
          assert !OccursAt(rest, pat, i - 1);
        }
      }
    }
  }

  /** `pat` cannot start inside a prefix `rep` that shares no character with it, nor in a tail free of it. */
  lemma NoOccurrenceAfterRep(rep: string, rest: string, pat: string)
    requires pat != []
    requires forall c :: c in rep ==> c !in pat
    requires !Contains(rest, pat)
    ensures !Contains(rep + rest, pat)
  {
    var r := rep + rest;
    var n := |pat|;
    forall i | 0 <= i <= |r| ensures !OccursAt(r, pat, i) {
      if i < |rep| {
        assert r[i] == rep[i] && rep[i] in rep;
        if i + n <= |r| {
          assert r[i..i + n][0] == r[i];
        }
      } else if i + n <= |r| {
        assert r[i..i + n] == rest[i - |rep|..i - |rep| + n];
        assert !OccursAt(rest, pat, i - |rep|);
      }
    }
  }

  // ---------------------------------------------------------------------------
  // re.escape and the \s class

  /** The characters `re.escape` prefixes with a backslash (Python 3.7 and later). */
  predicate IsRegexSpecial(c: char)
  {
    c in "()[]{}?*+-|^$\\.&~# \t\n\r" || c as int == 0x0B || c as int == 0x0C
  }

  /** `re.escape(s)` */
  function ReEscape(s: string): string
  {
    if s == [] then []
    else (if IsRegexSpecial(s[0]) then ['\\', s[0]] else [s[0]]) + ReEscape(s[1..])
  }

  /** Reading an escaped string back: a backslash makes the next character literal. */
  function Unescape(s: string): string
  {
    if s == [] then []
    else if s[0] == '\\' && |s| >= 2 then [s[1]] + Unescape(s[2..])
    else [s[0]] + Unescape(s[1..])
  }

  /** `re.escape` loses nothing: unescaping its output gives back the input. */
  lemma {:induction false} UnescapeReEscape(s: string)
    ensures Unescape(ReEscape(s)) == s
  {
    if s != [] {
      UnescapeReEscape(s[1..]);
      var e := ReEscape(s);
      if IsRegexSpecial(s[0]) {
        assert e == ['\\', s[0]] + ReEscape(s[1..]);
        assert e[2..] == ReEscape(s[1..]);
      } else {
        assert e == [s[0]] + ReEscape(s[1..]);
        assert e[1..] == ReEscape(s[1..]);
      }
    }
  }

  /** Characters matched by `\s` in a Python `str` pattern (those for which `str.isspace` holds). */
  predicate IsSpace(c: char)
  {
    var n := c as int;
    (9 <= n <= 13) || (28 <= n <= 32) || n == 0x85 || n == 0xA0 || n == 0x1680
    || (0x2000 <= n <= 0x200A) || n == 0x2028 || n == 0x2029 || n == 0x202F
    || n == 0x205F || n == 0x3000
  }

  /** `re.search(r"\s", s)` finds a match. */
  predicate HasWhitespace(s: string)
  {
    exists i :: 0 <= i < |s| && IsSpace(s[i])
  }

  // ---------------------------------------------------------------------------
  // Case and character classes

  predicate IsAsciiUpper(c: char) { 'A' <= c <= 'Z' }
  predicate IsAsciiLower(c: char) { 'a' <= c <= 'z' }
  predicate IsAsciiLetter(c: char) { IsAsciiUpper(c) || IsAsciiLower(c) }
  predicate IsAsciiDigit(c: char) { '0' <= c <= '9' }

  /** `LDH_ASCII_CHARS`: letters, digits and the hyphen. */
  predicate IsLdh(c: char) { IsAsciiLetter(c) || IsAsciiDigit(c) || c == '-' }

  predicate IsAscii(c: char) { c as int < 128 }

  function LowerChar(c: char): (r: char)
    ensures IsAsciiUpper(c) ==> IsAsciiLower(r) && r as int == c as int + 32
    ensures !IsAsciiUpper(c) ==> r == c
  {
    if IsAsciiUpper(c) then (c as int + 32) as char else c
  }

  /** `str.lower` on the ASCII letters. */
  function Lower(s: string): (r: string)
    ensures |r| == |s|
    ensures forall i :: 0 <= i < |s| ==> r[i] == LowerChar(s[i])
  {
    if s == [] then [] else [LowerChar(s[0])] + Lower(s[1..])
  }

  // ---------------------------------------------------------------------------
  // Python's ordering of strings (code point by code point)

  /** `a < b` on Python strings. */
  predicate StrLt(a: string, b: string)
  {
    if |a| == 0 then |b| > 0
    else if |b| == 0 then false
    else if a[0] != b[0] then a[0] < b[0]
    else StrLt(a[1..], b[1..])
  }

  /** `a <= b` on Python strings. */
  predicate StrLe(a: string, b: string)
  {
    !StrLt(b, a)
  }

  lemma {:induction false} StrLtIrreflexive(a: string)
    ensures !StrLt(a, a)
  {
    if |a| > 0 { StrLtIrreflexive(a[1..]); }
  }

  lemma {:induction false} StrLtTransitive(a: string, b: string, c: string)
    requires StrLt(a, b) && StrLt(b, c)
    ensures StrLt(a, c)
  {
    if |a| > 0 && |b| > 0 && |c| > 0 && a[0] == b[0] == c[0] {
      StrLtTransitive(a[1..], b[1..], c[1..]);
    }
  }

  lemma {:induction false} StrLtTotal(a: string, b: string)
    ensures a == b || StrLt(a, b) || StrLt(b, a)
  {
    if |a| > 0 && |b| > 0 && a[0] == b[0] {
      StrLtTotal(a[1..], b[1..]);
      if a[1..] == b[1..] {
        assert a == [a[0]] + a[1..] && b == [b[0]] + b[1..];
      }
    }
  }

  lemma StrLtAsymmetric(a: string, b: string)
    requires StrLt(a, b)
    ensures !StrLt(b, a)
  {
    if StrLt(b, a) {
      StrLtTransitive(a, b, a);
      StrLtIrreflexive(a);
    }
  }

  lemma StrLeTransitive(a: string, b: string, c: string)
    requires StrLe(a, b) && StrLe(b, c)
    ensures StrLe(a, c)
  {
    if StrLt(c, a) {
      StrLtTotal(a, b);
      if a != b && StrLt(a, b) {
        StrLtTransitive(c, a, b);
      }
    }
  }

  lemma StrLeTotal(a: string, b: string)
    ensures StrLe(a, b) || StrLe(b, a)
  {
    if StrLt(a, b) { StrLtAsymmetric(a, b); }
  }

  // ---------------------------------------------------------------------------
  // Searching, splitting and stripping

  /** The index of the first character of `s` in `chars`, or `|s|` if there is none. */
  function FirstIndexOf(s: string, chars: set<char>): (r: nat)
    ensures r <= |s|
    ensures forall j :: 0 <= j < r ==> s[j] !in chars
    ensures r < |s| ==> s[r] in chars
  {
    if s == [] then 0
    else if s[0] in chars then 0
    else 1 + FirstIndexOf(s[1..], chars)
  }

  /** The index of the last occurrence of `c` in `s` (what `rpartition` splits at). */
  function LastIndexOf(s: string, c: char): (r: Option<nat>)
    ensures r.None? ==> c !in s
    ensures r.Some? ==> r.value < |s| && s[r.value] == c && forall j :: r.value < j < |s| ==> s[j] != c
  {
    if s == [] then None
    else if s[|s| - 1] == c then Some(|s| - 1)
    else
      var r := LastIndexOf(s[..|s| - 1], c);
      assert forall j :: 0 <= j < |s| - 1 ==> s[..|s| - 1][j] == s[j];
      r
  }

  /** `s.split(sep)` for a one-character separator. */
  function SplitOn(s: string, sep: char): (r: seq<string>)
    ensures |r| >= 1
    ensures forall i :: 0 <= i < |r| ==> sep !in r[i]
    decreases |s|
  {
    var i := FirstIndexOf(s, {sep});
    if i == |s| then [s]
    else [s[..i]] + SplitOn(s[i + 1..], sep)
  }

  /** Joining the pieces of a split with the separator gives back the string. */
  lemma {:induction false} JoinSplitOn(s: string, sep: char)
    ensures Join([sep], SplitOn(s, sep)) == s
    decreases |s|
  {
    var i := FirstIndexOf(s, {sep});
    if i < |s| {
      JoinSplitOn(s[i + 1..], sep);
      var rest := SplitOn(s[i + 1..], sep);
      assert SplitOn(s, sep) == [s[..i]] + rest;
      assert s == s[..i] + [sep] + s[i + 1..];
    }
  }

  /** The first occurrence of the separator in `p + [sep] + x`, when `p` has none, is right after `p`. */
  lemma FirstSeparatorAfter(p: string, sep: char, x: string)
    requires sep !in p
    ensures FirstIndexOf(p + [sep] + x, {sep}) == |p|
  {
    var s := p + [sep] + x;
    assert s[|p|] == sep;
    assert forall j :: 0 <= j < |p| ==> s[j] == p[j];
  }

  /** The first of a set of characters is found where the prefix free of them ends. */
  lemma FirstIndexOfAt(p: string, chars: set<char>, x: string)
    requires forall j :: 0 <= j < |p| ==> p[j] !in chars
    requires x == [] || x[0] in chars
    ensures FirstIndexOf(p + x, chars) == |p|
  {
    var s := p + x;
    assert forall j :: 0 <= j < |p| ==> s[j] == p[j];
    assert x != [] ==> s[|p|] == x[0];
  }

  /** A string without the separator splits into itself. */
  lemma SplitOnAbsent(s: string, sep: char)
    requires sep !in s
    ensures SplitOn(s, sep) == [s]
  {
    assert FirstIndexOf(s, {sep}) == |s|;
  }

  /** Splitting a join of separator-free pieces gives back the pieces. */
  lemma {:induction false} SplitOnJoin(parts: seq<string>, sep: char)
    requires |parts| >= 1
    requires forall i :: 0 <= i < |parts| ==> sep !in parts[i]
    ensures SplitOn(Join([sep], parts), sep) == parts
  {
    if |parts| == 1 {
      assert Join([sep], parts) == parts[0];
      assert FirstIndexOf(parts[0], {sep}) == |parts[0]|;
    } else {
      var rest := Join([sep], parts[1..]);
      var s := Join([sep], parts);
      assert s == parts[0] + [sep] + rest;
      FirstSeparatorAfter(parts[0], sep, rest);
      assert s[..|parts[0]|] == parts[0];
      assert s[|parts[0]| + 1..] == rest;
      SplitOnJoin(parts[1..], sep);
      assert parts == [parts[0]] + parts[1..];
    }
  }

  /** `s.lstrip(c)` */
  function StripLeading(s: string, c: char): (r: string)
    ensures r == [] || r[0] != c
    ensures |r| <= |s| && r == s[|s| - |r|..]
  {
    if s != [] && s[0] == c then StripLeading(s[1..], c) else s
  }

  /** `s.rstrip(c)` */
  function StripTrailing(s: string, c: char): (r: string)
    ensures r == [] || r[|r| - 1] != c
    ensures |r| <= |s| && r == s[..|r|]
  {
    if s != [] && s[|s| - 1] == c then StripTrailing(s[..|s| - 1], c) else s
  }

  /** `s.strip(c)` */
  function Strip(s: string, c: char): (r: string)
    ensures r == [] || (r[0] != c && r[|r| - 1] != c)
  {
    var t := StripLeading(s, c);
    var r := StripTrailing(t, c);
    assert r != [] ==> r[0] == t[0];
    r
  }

  /** `lstrip` removes only copies of `c`. */
  lemma {:induction false} StripLeadingRemovesOnly(s: string, c: char)
    ensures forall k :: 0 <= k < |s| - |StripLeading(s, c)| ==> s[k] == c
  {
    if s != [] && s[0] == c {
      StripLeadingRemovesOnly(s[1..], c);
    }
  }

  /** `rstrip` removes only copies of `c`. */
  lemma {:induction false} StripTrailingRemovesOnly(s: string, c: char)
    ensures forall k :: |StripTrailing(s, c)| <= k < |s| ==> s[k] == c
  {
    if s != [] && s[|s| - 1] == c {
      StripTrailingRemovesOnly(s[..|s| - 1], c);
    }
  }

  /** `r` is the slice of `s` from `i`, with only copies of `c` before and after it. */
  predicate SliceBetweenRuns(s: string, c: char, r: string, i: int)
  {
    0 <= i <= |s| - |r| && r == s[i..i + |r|]
    && (forall k :: 0 <= k < i ==> s[k] == c)
    && (forall k :: i + |r| <= k < |s| ==> s[k] == c)
  }

  /**
   * `strip` keeps one contiguous slice of `s` and removes only copies of `c`
   * before and after it; with the contract of `Strip` (the slice neither
   * starts nor ends with `c`) this determines the result.
   */
  lemma StripCharacterised(s: string, c: char)
    ensures exists i :: SliceBetweenRuns(s, c, Strip(s, c), i)
  {
    var t := StripLeading(s, c);
    var r := StripTrailing(t, c);
    StripLeadingRemovesOnly(s, c);
    StripTrailingRemovesOnly(t, c);
    assert r == Strip(s, c);
    var i := |s| - |t|;
    assert r == t[..|r|] == s[i..i + |r|];
    forall k | i + |r| <= k < |s| ensures s[k] == c {
      assert s[k] == t[k - i];
    }
    assert SliceBetweenRuns(s, c, r, i);
  }

  /** Stripping only removes characters. */
  lemma StripSubset(s: string, c: char)
    ensures forall x :: x in Strip(s, c) ==> x in s
  {
    var t := StripLeading(s, c);
    var r := StripTrailing(t, c);
    forall i | 0 <= i < |r| ensures r[i] in s {
      assert r[i] == t[i] == s[|s| - |t| + i];
    }
  }

  /** Stripping twice strips nothing more. */
  lemma StripIdempotent(s: string, c: char)
    ensures Strip(Strip(s, c), c) == Strip(s, c)
  {
  }

  /** A string that does not start or end with `c` is not changed by stripping. */
  lemma StripNoop(s: string, c: char)
    requires s == [] || (s[0] != c && s[|s| - 1] != c)
    ensures Strip(s, c) == s
  {
  }

  /** One `c` on either side, or on both, is stripped off. */
  lemma StripOneEach(s: string, c: char)
    requires s != [] && s[0] != c && s[|s| - 1] != c
    ensures Strip([c] + s, c) == s
    ensures Strip(s + [c], c) == s
    ensures Strip([c] + s + [c], c) == s
  {
    assert ([c] + s)[1..] == s;
    assert StripLeading([c] + s, c) == StripLeading(s, c) == s;
    assert StripTrailing(s, c) == s;
    assert (s + [c])[..|s|] == s;
    assert StripLeading(s + [c], c) == s + [c];
    assert StripTrailing(s + [c], c) == StripTrailing(s, c);
    assert ([c] + s + [c])[1..] == s + [c];
    assert StripLeading([c] + s + [c], c) == StripLeading(s + [c], c);
  }

  /** Lower-casing changes nothing in a string without upper-case letters. */
  lemma LowerNoUpper(s: string)
    requires forall i :: 0 <= i < |s| ==> !IsAsciiUpper(s[i])
    ensures Lower(s) == s
  {
  }

  /** `str.lower` works character by character, so it distributes over concatenation. */
  lemma LowerConcat(a: string, b: string)
    ensures Lower(a + b) == Lower(a) + Lower(b)
  {
    var s := a + b;
    assert forall j :: 0 <= j < |a| ==> s[j] == a[j];
    assert forall j :: 0 <= j < |b| ==> s[|a| + j] == b[j];
  }

  /** No character of `s` is in `bad`. */
  predicate Avoids(s: string, bad: set<char>)
  {
    forall j :: 0 <= j < |s| ==> s[j] !in bad
  }

  lemma AvoidsConcat(a: string, b: string, bad: set<char>)
    ensures Avoids(a + b, bad) <==> Avoids(a, bad) && Avoids(b, bad)
  {
    var s := a + b;
    assert forall j :: 0 <= j < |a| ==> s[j] == a[j];
    assert forall j :: 0 <= j < |b| ==> s[|a| + j] == b[j];
    if Avoids(a, bad) && Avoids(b, bad) {
      forall j | 0 <= j < |s| ensures s[j] !in bad {
        if j >= |a| {
          assert s[j] == b[j - |a|];
        }
      }
    }
  }

  lemma AvoidsFewer(s: string, bad: set<char>, fewer: set<char>)
    requires Avoids(s, bad) && fewer <= bad
    ensures Avoids(s, fewer)
  {
  }

  predicate IsDecimalDigits(s: string)
  {
    s != [] && forall i :: 0 <= i < |s| ==> IsAsciiDigit(s[i])
  }

  function DigitValue(c: char): nat
    requires IsAsciiDigit(c)
  {
    (c as int - '0' as int) as nat
  }

  /** `int(s)` for a string of decimal digits. */
  function ParseDecimal(s: string): nat
    requires forall i :: 0 <= i < |s| ==> IsAsciiDigit(s[i])
  {
    if s == [] then 0 else ParseDecimal(s[..|s| - 1]) * 10 + DigitValue(s[|s| - 1])
  }

  /** `str(n)` */
  function DecimalString(n: nat): (r: string)
    ensures forall i :: 0 <= i < |r| ==> IsAsciiDigit(r[i])
    ensures r != []
  {
    var d := ['0' + ((n % 10) as char)];
    if n < 10 then d else DecimalString(n / 10) + d
  }

  /** `str` and `int` are inverse on decimal numbers. */
  lemma {:induction false} ParseDecimalString(n: nat)
    ensures ParseDecimal(DecimalString(n)) == n
  {
    var r := DecimalString(n);
    if n >= 10 {
      ParseDecimalString(n / 10);
      assert r[..|r| - 1] == DecimalString(n / 10);
    }
  }
}
