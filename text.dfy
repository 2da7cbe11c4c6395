/**
 * String operations of the JavaScript and Python runtimes that the blog
 * builder and the image embedder rely on: `split` and `join`, `trim`,
 * global replacement of a literal pattern, prefix and suffix tests, and the
 * ASCII character classes used by `\d`, `\w` and case conversion.
 */
module Text {

  // ---------------------------------------------------------------------
  // Character classes

  /** `\d` in a JavaScript regular expression without the `u` flag. */
  predicate IsDigit(c: char) {
    '0' <= c <= '9'
  }

  /** `\w` in a JavaScript regular expression: ASCII letters, digits and `_`. */
  predicate IsWordChar(c: char) {
    ('a' <= c <= 'z') || ('A' <= c <= 'Z') || IsDigit(c) || c == '_'
  }

  /** Upper-casing of an ASCII letter; every other character is kept. */
  function ToUpper(c: char): (u: char)
    ensures 'a' <= c <= 'z' ==> 'A' <= u <= 'Z' && u as int == c as int - 32
    ensures !('a' <= c <= 'z') ==> u == c
  {
    if 'a' <= c <= 'z' then (c as int - 32) as char else c
  }

  /** Lower-casing of an ASCII letter; every other character is kept. */
  function ToLower(c: char): (l: char)
    ensures 'A' <= c <= 'Z' ==> 'a' <= l <= 'z' && l as int == c as int + 32
    ensures !('A' <= c <= 'Z') ==> l == c
  {
    if 'A' <= c <= 'Z' then (c as int + 32) as char else c
  }

  /** Characters `String.prototype.trim` removes: white space and line terminators. */
  predicate IsJsWhitespace(c: char) {
    c == ' ' || c == '\t' || c == '\n' || c == '\U{000B}' || c == '\U{000C}' || c == '\r'
    || c == '\U{00A0}' || c == '\U{1680}' || ('\U{2000}' <= c <= '\U{200A}')
    || c == '\U{2028}' || c == '\U{2029}' || c == '\U{202F}' || c == '\U{205F}'
    || c == '\U{3000}' || c == '\U{FEFF}'
  }

  /** Characters that `.` in a JavaScript regular expression does not match. */
  predicate IsLineTerminator(c: char) {
    c == '\n' || c == '\r' || c == '\U{2028}' || c == '\U{2029}'
  }

  // ---------------------------------------------------------------------
  // Prefixes and suffixes

  predicate StartsWith(s: string, prefix: string) {
    |prefix| <= |s| && s[..|prefix|] == prefix
  }

  predicate EndsWith(s: string, suffix: string) {
    |suffix| <= |s| && s[|s| - |suffix|..] == suffix
  }

  /** `pat` occurs in `s` at some position. */
  predicate Occurs(pat: string, s: string)
    decreases |s|
  {
    StartsWith(s, pat) || (s != [] && Occurs(pat, s[1..]))
  }

  /** `s.toLowerCase()` / `s.lower()` restricted to ASCII letters. */
  function LowerAscii(s: string): (l: string)
    ensures |l| == |s|
    ensures forall i :: 0 <= i < |s| ==> l[i] == ToLower(s[i])
  {
    seq(|s|, i requires 0 <= i < |s| => ToLower(s[i]))
  }

  // ---------------------------------------------------------------------
  // split and join

  /**
   * `s.split(sep)` for a one-character separator: the pieces between
   * consecutive separators, in order, always at least one.
   */
  function Split(s: string, sep: char): (parts: seq<string>)
    ensures |parts| >= 1
    ensures forall i :: 0 <= i < |parts| ==> sep !in parts[i]
    decreases |s|
  {
    if |s| == 0 then [""]
    else
      var rest := Split(s[1..], sep);
      if s[0] == sep then [""] + rest
      else [[s[0]] + rest[0]] + rest[1..]
  }

  lemma AppendAssoc<T>(a: seq<T>, b: seq<T>, c: seq<T>)
    ensures a + (b + c) == a + b + c
  {
  }

  /** `parts.join(sep)`: the empty list joins to the empty string. */
  function Join(parts: seq<string>, sep: string): string
  {
    if |parts| == 0 then ""
    else if |parts| == 1 then parts[0]
    else parts[0] + sep + Join(parts[1..], sep)
  }

  /** `parts.join('')`. */
  function Concat(parts: seq<string>): string
  {
    if parts == [] then "" else parts[0] + Concat(parts[1..])
  }

  /** Joining the pieces of a split with the same separator gives back the string. */
  lemma {:induction false} JoinSplit(s: string, sep: char)
    ensures Join(Split(s, sep), [sep]) == s
    decreases |s|
  {
    if |s| > 0 {
      JoinSplit(s[1..], sep);
      var rest := Split(s[1..], sep);
      var parts := Split(s, sep);
      assert s == [s[0]] + s[1..];
      if s[0] != sep {
        assert parts == [[s[0]] + rest[0]] + rest[1..];
        if |rest| > 1 {
          assert parts[1..] == rest[1..];
          assert Join(rest, [sep]) == rest[0] + [sep] + Join(rest[1..], [sep]);
          assert Join(parts, [sep]) == ([s[0]] + rest[0]) + [sep] + Join(rest[1..], [sep]);
        }
      } else {
        assert parts == [""] + rest;
        assert parts[1..] == rest;
        assert Join(parts, [sep]) == "" + [sep] + Join(rest, [sep]);
      }
    }
  }

  /** A string without the separator, followed by more text, starts the first piece. */
  lemma {:induction false} SplitAfterPlain(a: string, t: string, sep: char)
    requires sep !in a
    ensures Split(a + t, sep) == [a + Split(t, sep)[0]] + Split(t, sep)[1..]
    decreases |a|
  {
    if a != [] {
      var s := a + t;
      assert s[0] == a[0] != sep;
      assert s[1..] == a[1..] + t;
      SplitAfterPlain(a[1..], t, sep);
      var r := Split(s[1..], sep);
      var st := Split(t, sep);
      assert r == [a[1..] + st[0]] + st[1..];
      assert Split(s, sep) == [[s[0]] + r[0]] + r[1..];
      assert r[1..] == st[1..];
      assert [s[0]] + r[0] == a + st[0];
    } else {
      var st := Split(t, sep);
      assert a + t == t && a + st[0] == st[0];
      assert st == [st[0]] + st[1..];
    }
  }

  /** A separator after a plain piece closes that piece. */
  lemma SplitAtSeparator(a: string, t: string, sep: char)
    requires sep !in a
    ensures Split(a + [sep] + t, sep) == [a] + Split(t, sep)
  {
    var u := [sep] + t;
    assert a + [sep] + t == a + u;
    assert u[0] == sep && u[1..] == t;
    assert Split(u, sep) == [""] + Split(t, sep);
    SplitAfterPlain(a, u, sep);
    assert a + "" == a;
  }

  /** Splitting the join of pieces that do not hold the separator gives back the pieces. */
  lemma {:induction false} SplitJoin(parts: seq<string>, sep: char)
    requires |parts| >= 1
    requires forall i :: 0 <= i < |parts| ==> sep !in parts[i]
    ensures Split(Join(parts, [sep]), sep) == parts
    decreases |parts|
  {
    if |parts| == 1 {
      SplitAfterPlain(parts[0], "", sep);
      assert parts[0] + "" == parts[0];
    } else {
      SplitJoin(parts[1..], sep);
      SplitAtSeparator(parts[0], Join(parts[1..], [sep]), sep);
      assert parts == [parts[0]] + parts[1..];
    }
  }

  /** Joining two non-empty lists puts one separator between their joins. */
  lemma {:induction false} JoinAppend(a: seq<string>, b: seq<string>, sep: string)
    requires |a| >= 1 && |b| >= 1
    ensures Join(a + b, sep) == Join(a, sep) + sep + Join(b, sep)
    decreases |a|
  {
    if |a| > 1 {
      JoinAppend(a[1..], b, sep);
      assert (a + b)[1..] == a[1..] + b;
    } else {
      assert (a + b)[1..] == b;
    }
  }

  /** `join('')` of a list with one more element ends with that element. */
  lemma {:induction false} ConcatAppend(a: seq<string>, x: string)
    ensures Concat(a + [x]) == Concat(a) + x
    decreases |a|
  {
    if a == [] {
      assert [] + [x] == [x];
    } else {
      ConcatAppend(a[1..], x);
      assert (a + [x])[1..] == a[1..] + [x];
    }
  }

  // ---------------------------------------------------------------------
  // trim

  /** `s.trimStart()`. */
  function TrimStart(s: string): (r: string)
    ensures |r| <= |s| && r == s[|s| - |r|..]
    ensures forall i :: 0 <= i < |s| - |r| ==> IsJsWhitespace(s[i])
    ensures r != [] ==> !IsJsWhitespace(r[0])
    decreases |s|
  {
    if s != [] && IsJsWhitespace(s[0]) then TrimStart(s[1..]) else s
  }

  /** `s.trimEnd()`. */
  function TrimEnd(s: string): (r: string)
    ensures |r| <= |s| && r == s[..|r|]
    ensures forall i :: |r| <= i < |s| ==> IsJsWhitespace(s[i])
    ensures r != [] ==> !IsJsWhitespace(r[|r| - 1])
    decreases |s|
  {
    if s != [] && IsJsWhitespace(s[|s| - 1]) then TrimEnd(s[..|s| - 1]) else s
  }

  /** `s.trim()`: white space removed from both ends. */
  function Trim(s: string): string {
    TrimEnd(TrimStart(s))
  }

  /** The trimmed text neither starts nor ends with white space, and is empty exactly for all-white-space text. */
  lemma TrimShape(s: string)
    ensures var r := Trim(s);
      && |r| <= |s|
      && (r != [] ==> !IsJsWhitespace(r[0]) && !IsJsWhitespace(r[|r| - 1]))
      && ((forall i :: 0 <= i < |s| ==> IsJsWhitespace(s[i])) <==> r == [])
  {
    var t := TrimStart(s);
    var r := TrimEnd(t);
    assert r == [] ==> t == [];
    assert r != [] ==> 0 < |t| && r[0] == t[0];
  }

  /** The trimmed text is the middle part of `s` with only white space before and after it. */
  lemma TrimMiddle(s: string)
    ensures var r, i := Trim(s), |s| - |TrimStart(s)|;
      && i + |r| <= |s| && r == s[i..i + |r|]
      && (forall k :: 0 <= k < i ==> IsJsWhitespace(s[k]))
      && (forall k :: i + |r| <= k < |s| ==> IsJsWhitespace(s[k]))
  {
    var t := TrimStart(s);
    var r := TrimEnd(t);
    assert A: |t| <= |s| && t == s[|s| - |t|..];
    assert B: |r| <= |t| && r == t[..|r|];
    TrimInfix(s, t, r);
  }

  /** Cutting white space off the front and then off the back leaves a middle part. */
  lemma TrimInfix(s: string, t: string, r: string)
    requires |t| <= |s| && t == s[|s| - |t|..]
    requires forall k :: 0 <= k < |s| - |t| ==> IsJsWhitespace(s[k])
    requires |r| <= |t| && r == t[..|r|]
    requires forall k :: |r| <= k < |t| ==> IsJsWhitespace(t[k])
    ensures var i := |s| - |t|;
      && i + |r| <= |s| && r == s[i..i + |r|]
      && (forall k :: 0 <= k < i ==> IsJsWhitespace(s[k]))
      && (forall k :: i + |r| <= k < |s| ==> IsJsWhitespace(s[k]))
  {
    var i := |s| - |t|;
    PrefixOfSuffix(s, t, r);
    forall k | i + |r| <= k < |s| ensures IsJsWhitespace(s[k]) {
      assert t[k - i] == s[k];
    }
  }

  /** A prefix of a suffix is a middle part. */
  lemma PrefixOfSuffix<T>(s: seq<T>, t: seq<T>, r: seq<T>)
    requires |t| <= |s| && t == s[|s| - |t|..]
    requires |r| <= |t| && r == t[..|r|]
    ensures r == s[|s| - |t|..|s| - |t| + |r|]
  {
  }

  // ---------------------------------------------------------------------
  // Global replacement of a literal pattern

  /**
   * `s.replace(/pat/g, rep)` for a pattern that matches only its own
   * literal text: occurrences are found left to right, do not overlap, and
   * each is replaced by `rep` (taken literally).
   */
  function ReplaceAll(s: string, pat: string, rep: string): string
    requires pat != []
    decreases |s|
  {
    if |s| < |pat| then s
    else if s[..|pat|] == pat then rep + ReplaceAll(s[|pat|..], pat, rep)
    else [s[0]] + ReplaceAll(s[1..], pat, rep)
  }

  /** A text in which the pattern does not occur is left unchanged. */
  lemma {:induction false} ReplaceAllAbsent(s: string, pat: string, rep: string)
    requires pat != []
    requires !Occurs(pat, s)
    ensures ReplaceAll(s, pat, rep) == s
    decreases |s|
  {
    if |s| >= |pat| {
      ReplaceAllAbsent(s[1..], pat, rep);
      assert s == [s[0]] + s[1..];
    }
  }

  /** Text that cannot start an occurrence passes through: replacement goes on after it. */
  lemma {:induction false} ReplaceAllSkip(a: string, t: string, pat: string, rep: string)
    requires pat != []
    requires pat[0] !in a
    ensures ReplaceAll(a + t, pat, rep) == a + ReplaceAll(t, pat, rep)
    decreases |a|
  {
    if a != [] {
      var s := a + t;
      assert s[0] == a[0] != pat[0];
      assert s[1..] == a[1..] + t;
      ReplaceAllSkip(a[1..], t, pat, rep);
      if |s| < |pat| {
        assert |t| < |pat|;
        assert ReplaceAll(t, pat, rep) == t;
        assert ReplaceAll(a[1..] + t, pat, rep) == a[1..] + t;
      } else {
        assert s[..|pat|][0] != pat[0];
        assert ReplaceAll(s, pat, rep) == [a[0]] + ReplaceAll(a[1..] + t, pat, rep);
      }
      assert a == [a[0]] + a[1..];
      assert [a[0]] + (a[1..] + ReplaceAll(t, pat, rep)) == a + ReplaceAll(t, pat, rep);
    } else {
      assert a + t == t;
      assert a + ReplaceAll(t, pat, rep) == ReplaceAll(t, pat, rep);
    }
  }

  /** An occurrence at the front is replaced and scanning resumes right after it. */
  lemma ReplaceAllHead(t: string, pat: string, rep: string)
    requires pat != []
    ensures ReplaceAll(pat + t, pat, rep) == rep + ReplaceAll(t, pat, rep)
  {
    var s := pat + t;
    assert s[..|pat|] == pat;
    assert s[|pat|..] == t;
  }

  /** A pattern none of whose proper prefixes is also a suffix, so no two occurrences can overlap. */
  predicate Borderless(pat: string) {
    forall n :: 0 < n < |pat| ==> pat[..n] != pat[|pat| - n..]
  }

  /** An occurrence at position k means the pattern occurs. */
  lemma {:induction false} OccursAt(pat: string, s: string, k: int)
    requires 0 <= k <= |s| && StartsWith(s[k..], pat)
    ensures Occurs(pat, s)
    decreases k
  {
    if k > 0 {
      assert s[1..][k - 1..] == s[k..];
      OccursAt(pat, s[1..], k - 1);
    }
  }

  /** A pattern that starts at no position does not occur. */
  lemma {:induction false} NotOccurs(pat: string, s: string)
    requires forall k :: 0 <= k <= |s| ==> !StartsWith(s[k..], pat)
    ensures !Occurs(pat, s)
    decreases |s|
  {
    assert s[0..] == s;
    if s != [] {
      forall k | 0 <= k <= |s[1..]| ensures !StartsWith(s[1..][k..], pat) {
        assert s[1..][k..] == s[k + 1..];
      }
      NotOccurs(pat, s[1..]);
    }
  }

  /** Text at no position of which an occurrence starts passes through unchanged. */
  lemma {:induction false} ReplaceAllPass(a: string, t: string, pat: string, rep: string)
    requires pat != []
    requires forall k :: 0 <= k < |a| ==> !StartsWith((a + t)[k..], pat)
    ensures ReplaceAll(a + t, pat, rep) == a + ReplaceAll(t, pat, rep)
    decreases |a|
  {
    if a == [] {
      assert a + t == t;
    } else {
      var s := a + t;
      PassTail(a, t, pat);
      ReplaceAllPass(a[1..], t, pat, rep);
      ReplaceAllNoMatchStep(s, pat, rep);
      assert s[1..] == a[1..] + t;
      assert a == [a[0]] + a[1..];
    }
  }

  /** The pass-through condition holds for the tail of `a` as well. */
  lemma PassTail(a: string, t: string, pat: string)
    requires a != []
    requires forall k :: 0 <= k < |a| ==> !StartsWith((a + t)[k..], pat)
    ensures forall k :: 0 <= k < |a[1..]| ==> !StartsWith((a[1..] + t)[k..], pat)
    ensures !StartsWith(a + t, pat)
  {
    assert (a + t)[0..] == a + t;
    forall k | 0 <= k < |a[1..]| ensures !StartsWith((a[1..] + t)[k..], pat) {
      assert (a[1..] + t)[k..] == (a + t)[k + 1..];
    }
  }

  /** Where no occurrence starts, the first character is kept. */
  lemma ReplaceAllNoMatchStep(s: string, pat: string, rep: string)
    requires pat != [] && s != [] && !StartsWith(s, pat)
    ensures ReplaceAll(s, pat, rep) == [s[0]] + ReplaceAll(s[1..], pat, rep)
  {
    if |s| < |pat| {
      assert ReplaceAll(s[1..], pat, rep) == s[1..];
      assert s == [s[0]] + s[1..];
    }
  }

  /** An occurrence that overlaps the end of `p` and the pattern after it is a border. */
  lemma OverlapBorder(p: string, pat: string, rest: string, k: int)
    requires 0 <= k < |p| < k + |pat|
    requires StartsWith((p + (pat + rest))[k..], pat)
    ensures var n := |pat| - (|p| - k); 0 < n < |pat| && pat[..n] == pat[|pat| - n..]
  {
    var s := p + (pat + rest);
    var m := |p| - k;
    var n := |pat| - m;
    forall j | 0 <= j < n ensures pat[..n][j] == pat[|pat| - n..][j] {
      assert s[k..][m + j] == s[|p| + j] == pat[j];
      assert s[k..][..|pat|][m + j] == pat[m + j];
    }
  }

  /**
   * A piece in which a border-free pattern does not occur, followed by the
   * pattern, holds no occurrence that starts inside the piece.
   */
  lemma PieceBeforePattern(p: string, pat: string, rest: string)
    requires pat != [] && Borderless(pat) && !Occurs(pat, p)
    ensures forall k :: 0 <= k < |p| ==> !StartsWith((p + (pat + rest))[k..], pat)
  {
    var s := p + (pat + rest);
    forall k | 0 <= k < |p| ensures !StartsWith(s[k..], pat) {
      if StartsWith(s[k..], pat) {
        if k + |pat| <= |p| {
          assert p[k..][..|pat|] == s[k..][..|pat|];
          OccursAt(pat, p, k);
        } else {
          OverlapBorder(p, pat, rest, k);
        }
        assert false;
      }
    }
  }

  /**
   * Every occurrence is replaced: text made of pieces in which a border-free
   * pattern does not occur, separated by the pattern, becomes the pieces
   * separated by `rep`.
   */
  lemma {:induction false} ReplaceAllJoin(pieces: seq<string>, pat: string, rep: string)
    requires pat != [] && Borderless(pat)
    requires forall i :: 0 <= i < |pieces| ==> !Occurs(pat, pieces[i])
    ensures ReplaceAll(Join(pieces, pat), pat, rep) == Join(pieces, rep)
    decreases |pieces|
  {
    if |pieces| == 1 {
      ReplaceAllAbsent(pieces[0], pat, rep);
    } else if |pieces| > 1 {
      var rest := Join(pieces[1..], pat);
      ReplaceAllJoin(pieces[1..], pat, rep);
      assert Join(pieces, pat) == pieces[0] + (pat + rest);
      PieceBeforePattern(pieces[0], pat, rest);
      ReplaceAllPass(pieces[0], pat + rest, pat, rep);
      ReplaceAllHead(rest, pat, rep);
    }
  }

  /** A pattern and replacement of one character each: `s` with every `pat[0]` turned into `rep[0]`. */
  lemma {:induction false} ReplaceAllChar(s: string, pat: string, rep: string)
    requires |pat| == 1 && |rep| == 1
    ensures |ReplaceAll(s, pat, rep)| == |s|
    ensures forall i :: 0 <= i < |s| ==>
      ReplaceAll(s, pat, rep)[i] == (if s[i] == pat[0] then rep[0] else s[i])
    decreases |s|
  {
    if |s| >= 1 {
      ReplaceAllChar(s[1..], pat, rep);
      var r := ReplaceAll(s, pat, rep);
      var tail := ReplaceAll(s[1..], pat, rep);
      if s[..1] == pat {
        assert s[1..] == s[|pat|..];
        assert r == rep + tail;
      } else {
        assert r == [s[0]] + tail;
      }
      forall i | 1 <= i < |s|
        ensures r[i] == (if s[i] == pat[0] then rep[0] else s[i])
      {
        assert r[i] == tail[i - 1];
        assert s[1..][i - 1] == s[i];
      }
    }
  }

  // ---------------------------------------------------------------------
  // Decimal numbers

  function DigitValue(c: char): nat {
    if IsDigit(c) then c as int - '0' as int else 0
  }

  /** The number written by a string of decimal digits (non-digits count as 0). */
  function DigitsValue(s: string): nat
  {
    if s == [] then 0 else DigitsValue(s[..|s| - 1]) * 10 + DigitValue(s[|s| - 1])
  }

  /** `String(n)` for a natural number: its shortest decimal numeral. */
  function NatToString(n: nat): (r: string)
    ensures |r| >= 1
    ensures forall i :: 0 <= i < |r| ==> IsDigit(r[i])
    ensures (r[0] == '0') <==> n == 0
  {
    if n < 10 then [('0' as int + n) as char]
    else NatToString(n / 10) + [('0' as int + n % 10) as char]
  }

  /** Reading back the numeral of `n` gives `n`. */
  lemma {:induction false} NatToStringValue(n: nat)
    ensures DigitsValue(NatToString(n)) == n
  {
    var r := NatToString(n);
    if n >= 10 {
      NatToStringValue(n / 10);
      assert r[..|r| - 1] == NatToString(n / 10);
    }
  }

  function Pow10(n: nat): (p: nat)
    ensures p >= 1
  {
    if n == 0 then 1 else 10 * Pow10(n - 1)
  }

  /** A numeral of n digits stands for less than 10^n. */
  lemma {:induction false} DigitsBound(s: string)
    ensures DigitsValue(s) < Pow10(|s|)
    decreases |s|
  {
    if s != [] {
      DigitsBound(s[..|s| - 1]);
      assert DigitValue(s[|s| - 1]) <= 9;
    }
  }

  /** Appending digits shifts the value of the front part by their count. */
  lemma {:induction false} DigitsValueAppend(x: string, y: string)
    ensures DigitsValue(x + y) == DigitsValue(x) * Pow10(|y|) + DigitsValue(y)
    decreases |y|
  {
    if y == [] {
      assert x + y == x;
    } else {
      var y' := y[..|y| - 1];
      DigitsValueAppend(x, y');
      assert (x + y)[..|x + y| - 1] == x + y';
      assert (x + y)[|x + y| - 1] == y[|y| - 1];
      assert DigitsValue(x + y) == DigitsValue(x + y') * 10 + DigitValue(y[|y| - 1]);
      assert DigitsValue(y) == DigitsValue(y') * 10 + DigitValue(y[|y| - 1]);
      ShiftDigit(DigitsValue(x), Pow10(|y'|), DigitsValue(y'), DigitValue(y[|y| - 1]));
    }
  }

  lemma ShiftDigit(a: nat, p: nat, b: nat, d: nat)
    ensures (a * p + b) * 10 + d == a * (10 * p) + (b * 10 + d)
  {
  }

  /** String order by character codes, as JavaScript's `<` on strings of these characters. */
  predicate LexLess(a: string, b: string)
    decreases |a|
  {
    b != [] && (a == [] || a[0] < b[0] || (a[0] == b[0] && LexLess(a[1..], b[1..])))
  }

  /** Equal-length prefixes decide the order first; only equal prefixes defer to the rest. */
  lemma {:induction false} LexLessAppend(x: string, s: string, y: string, t: string)
    requires |x| == |y|
    ensures LexLess(x + s, y + t) <==> LexLess(x, y) || (x == y && LexLess(s, t))
    decreases |x|
  {
    if x != [] {
      LexLessAppend(x[1..], s, y[1..], t);
      assert (x + s)[1..] == x[1..] + s && (y + t)[1..] == y[1..] + t;
      assert x == y <==> (x[0] == y[0] && x[1..] == y[1..]) by {
        if x[0] == y[0] && x[1..] == y[1..] {
          assert x == [x[0]] + x[1..] && y == [y[0]] + y[1..];
        }
      }
    } else {
      assert x + s == s && y + t == t;
    }
  }

  predicate AllDigits(s: string) {
    forall i :: 0 <= i < |s| ==> IsDigit(s[i])
  }

  /** The leading digit of a numeral weighs 10^(n-1). */
  lemma FrontDigit(a: string)
    requires a != []
    ensures DigitsValue(a) == DigitValue(a[0]) * Pow10(|a| - 1) + DigitsValue(a[1..])
  {
    var x, r := [a[0]], a[1..];
    DigitsValueAppend(x, r);
    assert x + r == a;
    assert DigitsValue(x) == DigitValue(a[0]) by {
      assert x[..0] == [];
      assert DigitsValue(x) == DigitsValue([]) * 10 + DigitValue(x[0]);
    }
  }

  /** A smaller leading digit outweighs any rest. */
  lemma LeadingDigitDecides(da: nat, db: nat, ra: nat, rb: nat, p: nat)
    requires da < db && ra < p
    ensures da * p + ra < db * p + rb
  {
    assert (da + 1) * p <= db * p;
  }

  /**
   * For numerals of the same length, numeric order is string order and equal
   * values are equal numerals.
   */
  lemma {:induction false} DigitsOrder(a: string, b: string)
    requires |a| == |b| && AllDigits(a) && AllDigits(b)
    ensures DigitsValue(a) < DigitsValue(b) <==> LexLess(a, b)
    ensures DigitsValue(a) == DigitsValue(b) <==> a == b
    decreases |a|
  {
    if a != [] {
      DigitsOrder(a[1..], b[1..]);
      FrontDigit(a);
      FrontDigit(b);
      DigitsBound(a[1..]);
      DigitsBound(b[1..]);
      var p := Pow10(|a| - 1);
      var da, db := DigitValue(a[0]), DigitValue(b[0]);
      var ra, rb := DigitsValue(a[1..]), DigitsValue(b[1..]);
      if a[0] < b[0] {
        LeadingDigitDecides(da, db, ra, rb, p);
      } else if b[0] < a[0] {
        LeadingDigitDecides(db, da, rb, ra, p);
      } else {
        assert a == [a[0]] + a[1..] && b == [b[0]] + b[1..];
      }
    }
  }
}
