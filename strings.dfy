/**
 * The Python string operations the pipeline relies on, as total functions over
 * `seq<char>`: `str.split(sep)`, `sep.join`, `str.split()`, `str.replace`,
 * `str.rfind`, `str.strip`, ASCII `lower`/`upper`, `str(n)` and `int(s)`.
 * Character classes are the ASCII ones of Python 2 byte strings.
 */
module Strings {
  import opened Wrappers

  /** Whitespace as Python 2's `str.split()` and `str.strip()` see it. */
  const Whitespace: set<char> := {' ', '\t', '\n', '\r', '\U{0B}', '\U{0C}'}

  predicate IsSpace(c: char) { c in Whitespace }

  predicate NoSpace(s: string) { forall i :: 0 <= i < |s| ==> !IsSpace(s[i]) }

  predicate IsDigit(c: char) { '0' <= c <= '9' }

  predicate AllDigits(s: string) { forall i :: 0 <= i < |s| ==> IsDigit(s[i]) }

  predicate IsUpper(c: char) { 'A' <= c <= 'Z' }

  predicate IsLower(c: char) { 'a' <= c <= 'z' }

  predicate StartsWith(s: string, prefix: string) { |prefix| <= |s| && s[..|prefix|] == prefix }

  predicate EndsWith(s: string, suffix: string) { |suffix| <= |s| && s[|s| - |suffix|..] == suffix }

  /** `sub` occurs in `s` starting at index `j`. */
  predicate OccursAt(s: string, sub: string, j: int)
  {
    0 <= j && j + |sub| <= |s| && s[j..j + |sub|] == sub
  }

  /** No part contains the separator. */
  predicate SepFree(parts: seq<string>, sep: char)
  {
    forall i :: 0 <= i < |parts| ==> sep !in parts[i]
  }

  // ---------------------------------------------------------------------------
  // sep.join(parts) and s.split(sep)
  // ---------------------------------------------------------------------------

  /** Python `sep.join(parts)` for a one-character separator. */
  function Join(parts: seq<string>, sep: char): string
  {
    if |parts| == 0 then ""
    else if |parts| == 1 then parts[0]
    else parts[0] + [sep] + Join(parts[1..], sep)
  }

  /**
   * Python `s.split(sep)` for a one-character separator: never empty, and the
   * parts are exactly the separator-free pieces that join back to `s`.
   */
  function Split(s: string, sep: char): (r: seq<string>)
    ensures |r| >= 1
    ensures SepFree(r, sep)
    ensures Join(r, sep) == s
    decreases |s|
  {
    if |s| == 0 then [""]
    else
      var rest := Split(s[1..], sep);
      if s[0] == sep then
        assert s == [sep] + s[1..];
        [""] + rest
      else
        var r := [[s[0]] + rest[0]] + rest[1..];
        assert r[1..] == rest[1..];
        assert s == [s[0]] + s[1..];
        r
  }

  /** Concatenation regroups freely. */
  lemma ConcatAssoc<T>(a: seq<T>, b: seq<T>, c: seq<T>)
    ensures a + (b + c) == a + b + c
  {
  }

  lemma {:induction false} JoinAppend(x: seq<string>, y: seq<string>, sep: char)
    requires |x| >= 1 && |y| >= 1
    ensures Join(x + y, sep) == Join(x, sep) + [sep] + Join(y, sep)
    decreases |x|
  {
    if |x| == 1 {
      assert (x + y)[1..] == y;
    } else {
      assert (x + y)[1..] == x[1..] + y;
      JoinAppend(x[1..], y, sep);
    }
  }

  /** Splitting a separator-free head followed by the separator peels off that head. */
  lemma {:induction false} SplitAfterHead(a: string, t: string, sep: char)
    requires sep !in a
    ensures Split(a + [sep] + t, sep) == [a] + Split(t, sep)
    decreases |a|
  {
    if |a| == 0 {
      assert (a + [sep] + t)[1..] == t;
    } else {
      assert (a + [sep] + t)[1..] == a[1..] + [sep] + t;
      SplitAfterHead(a[1..], t, sep);
      assert [a[0]] + a[1..] == a;
    }
  }

  /** A separator-free string splits into itself alone. */
  lemma {:induction false} SplitSepFree(a: string, sep: char)
    requires sep !in a
    ensures Split(a, sep) == [a]
    decreases |a|
  {
    if |a| > 0 {
      SplitSepFree(a[1..], sep);
      assert [a[0]] + a[1..] == a;
    }
  }

  /** `split` inverts `join` whenever no part contains the separator. */
  lemma {:induction false} SplitJoin(parts: seq<string>, sep: char)
    requires |parts| >= 1 && SepFree(parts, sep)
    ensures Split(Join(parts, sep), sep) == parts
    decreases |parts|
  {
    if |parts| == 1 {
      SplitSepFree(parts[0], sep);
    } else {
      SplitJoin(parts[1..], sep);
      SplitAfterHead(parts[0], Join(parts[1..], sep), sep);
    }
  }

  /** Two separator-free part lists with the same join are the same list. */
  lemma JoinInjective(a: seq<string>, b: seq<string>, sep: char)
    requires |a| >= 1 && |b| >= 1 && SepFree(a, sep) && SepFree(b, sep)
    requires Join(a, sep) == Join(b, sep)
    ensures a == b
  {
    SplitJoin(a, sep);
    SplitJoin(b, sep);
  }

  /** Splitting at one separator occurrence concatenates the splits of both sides. */
  lemma SplitConcat(a: string, b: string, sep: char)
    ensures Split(a + [sep] + b, sep) == Split(a, sep) + Split(b, sep)
  {
    var x, y := Split(a, sep), Split(b, sep);
    JoinAppend(x, y, sep);
    SplitJoin(x + y, sep);
  }

  // ---------------------------------------------------------------------------
  // str.strip / lstrip / rstrip with a set of characters
  // ---------------------------------------------------------------------------

  /** Python `s.lstrip(chars)`: drops the longest prefix made of `cs`. */
  function LStrip(s: string, cs: set<char>): (r: string)
    ensures |r| <= |s| && r == s[|s| - |r|..]
    ensures forall i :: 0 <= i < |s| - |r| ==> s[i] in cs
    ensures r == [] || r[0] !in cs
    decreases |s|
  {
    if |s| > 0 && s[0] in cs then LStrip(s[1..], cs) else s
  }

  /** Python `s.rstrip(chars)`: drops the longest suffix made of `cs`. */
  function RStrip(s: string, cs: set<char>): (r: string)
    ensures |r| <= |s| && r == s[..|r|]
    ensures forall i :: |r| <= i < |s| ==> s[i] in cs
    ensures r == [] || r[|r| - 1] !in cs
    decreases |s|
  {
    if |s| > 0 && s[|s| - 1] in cs then RStrip(s[..|s| - 1], cs) else s
  }

  /** Python `s.strip(chars)`; `Trim` below is `s.strip()`. */
  function Strip(s: string, cs: set<char>): (r: string)
    ensures exists i, j ::
              0 <= i <= j <= |s| && r == s[i..j] &&
              (forall k :: 0 <= k < i ==> s[k] in cs) && (forall k :: j <= k < |s| ==> s[k] in cs)
    ensures r == [] || (r[0] !in cs && r[|r| - 1] !in cs)
  {
    var l := LStrip(s, cs);
    var r := RStrip(l, cs);
    SuffixPrefix(s, l, r, cs);
    r
  }

  /** A prefix `r` of a suffix `l` of `s` is a slice of `s`; what the prefix leaves of `l` is what follows it in `s`. */
  lemma SuffixPrefix(s: string, l: string, r: string, cs: set<char>)
    requires |l| <= |s| && l == s[|s| - |l|..] && |r| <= |l| && r == l[..|r|]
    requires forall k :: |r| <= k < |l| ==> l[k] in cs
    ensures var i := |s| - |l|; r == s[i..i + |r|] && forall k :: i + |r| <= k < |s| ==> s[k] in cs
  {
    var i := |s| - |l|;
    forall k | i + |r| <= k < |s|
      ensures s[k] in cs
    {
      assert s[k] == l[k - i];
    }
  }

  function Trim(s: string): string { Strip(s, Whitespace) }

  /** Stripping a string whose ends are outside `cs` changes nothing. */
  lemma StripNoop(s: string, cs: set<char>)
    requires s == [] || (s[0] !in cs && s[|s| - 1] !in cs)
    ensures Strip(s, cs) == s
  {
  }

  // ---------------------------------------------------------------------------
  // str.split() with no argument
  // ---------------------------------------------------------------------------

  /** Non-empty words without whitespace: what `str.split()` produces. */
  predicate IsWordList(ws: seq<string>)
  {
    forall i :: 0 <= i < |ws| ==> ws[i] != [] && NoSpace(ws[i])
  }

  /** The first index at or after `j` that holds whitespace, or `|s|`. */
  function WordEnd(s: string, j: nat): (e: nat)
    requires j <= |s|
    ensures j <= e <= |s|
    ensures forall i :: j <= i < e ==> !IsSpace(s[i])
    ensures e < |s| ==> IsSpace(s[e])
    decreases |s| - j
  {
    if j == |s| || IsSpace(s[j]) then j else WordEnd(s, j + 1)
  }

  /** Python `s.split()`: the maximal runs of non-whitespace, in order. */
  function Words(s: string): (r: seq<string>)
    ensures IsWordList(r)
    decreases |s|
  {
    var t := LStrip(s, Whitespace);
    if t == [] then []
    else
      var e := WordEnd(t, 0);
      assert e >= 1 by { assert !IsSpace(t[0]); }
      var rest := Words(t[e..]);
      WordListCons(t[..e], rest);
      [t[..e]] + rest
  }

  lemma WordListCons(w: string, rest: seq<string>)
    requires w != [] && NoSpace(w) && IsWordList(rest)
    ensures IsWordList([w] + rest)
  {
    var r := [w] + rest;
    forall i | 0 <= i < |r| ensures r[i] != [] && NoSpace(r[i]) {
      if i > 0 { assert r[i] == rest[i - 1]; }
    }
  }

  /** Leading whitespace does not change the words. */
  lemma WordsAfterSpace(c: char, x: string)
    requires IsSpace(c)
    ensures Words([c] + x) == Words(x)
  {
    assert ([c] + x)[1..] == x;
    assert LStrip([c] + x, Whitespace) == LStrip(x, Whitespace);
  }

  /** A word followed by a space: the word comes first, then the words of the rest. */
  lemma WordsOfWordThen(w: string, rest: string)
    requires w != [] && NoSpace(w)
    ensures Words(w + [' '] + rest) == [w] + Words(rest)
  {
    WordsFirstWord(w, rest);
    WordsAfterSpace(' ', rest);
  }

  /** The first word of a word followed by a space is that word. */
  lemma WordsFirstWord(w: string, rest: string)
    requires w != [] && NoSpace(w)
    ensures Words(w + [' '] + rest) == [w] + Words([' '] + rest)
  {
    var s := w + [' '] + rest;
    assert s[0] == w[0];
    WordEndAt(w, rest);
    WordsUnfold(s);
    assert s[..|w|] == w;
    assert s[|w|..] == [' '] + rest;
  }

  /** Text that starts with a non-space character: its first word, then the words after it. */
  lemma WordsUnfold(s: string)
    requires s != [] && !IsSpace(s[0])
    ensures Words(s) == [s[..WordEnd(s, 0)]] + Words(s[WordEnd(s, 0)..])
  {
    assert LStrip(s, Whitespace) == s;
  }

  /** The first word of a word followed by a space ends at that space. */
  lemma WordEndAt(w: string, rest: string)
    requires w != [] && NoSpace(w)
    ensures WordEnd(w + [' '] + rest, 0) == |w|
  {
    var s := w + [' '] + rest;
    assert IsSpace(s[|w|]);
    forall i | 0 <= i < |w|
      ensures !IsSpace(s[i])
    {
      assert s[i] == w[i];
    }
  }

  /** A single word is its own split. */
  lemma WordsOfWord(w: string)
    requires w != [] && NoSpace(w)
    ensures Words(w) == [w]
  {
    assert LStrip(w, Whitespace) == w;
    assert WordEnd(w, 0) == |w|;
    assert w[..|w|] == w;
    assert Words(w[|w|..]) == [];
  }

  /** `str.split()` inverts `' '.join` on a list of words. */
  lemma {:induction false} WordsOfJoin(ws: seq<string>)
    requires IsWordList(ws)
    ensures Words(Join(ws, ' ')) == ws
    decreases |ws|
  {
    if |ws| == 1 {
      WordsOfWord(ws[0]);
    } else if |ws| > 1 {
      WordListTail(ws);
      WordsOfJoin(ws[1..]);
      WordsOfJoinStep(ws);
    }
  }

  lemma WordListTail(ws: seq<string>)
    requires |ws| >= 1 && IsWordList(ws)
    ensures IsWordList(ws[1..])
  {
    var tail := ws[1..];
    forall i | 0 <= i < |tail| ensures tail[i] != [] && NoSpace(tail[i]) { assert tail[i] == ws[i + 1]; }
  }

  /** One step of `WordsOfJoin`: from the tail's round trip to the whole list's. */
  lemma WordsOfJoinStep(ws: seq<string>)
    requires |ws| > 1 && IsWordList(ws)
    requires Words(Join(ws[1..], ' ')) == ws[1..]
    ensures Words(Join(ws, ' ')) == ws
  {
    var rest := Join(ws[1..], ' ');
    assert Join(ws, ' ') == ws[0] + [' '] + rest;
    WordsOfWordThen(ws[0], rest);
    assert [ws[0]] + ws[1..] == ws;
  }

  // ---------------------------------------------------------------------------
  // ASCII case mapping
  // ---------------------------------------------------------------------------

  function LowerChar(c: char): char
  {
    if IsUpper(c) then (c as int + 32) as char else c
  }

  function UpperChar(c: char): char
  {
    if IsLower(c) then (c as int - 32) as char else c
  }

  /** Python 2 `str.lower()`: every ASCII capital becomes small; nothing else moves. */
  function Lower(s: string): (r: string)
    ensures |r| == |s|
    ensures forall i :: 0 <= i < |r| ==> !IsUpper(r[i])
    ensures forall i :: 0 <= i < |r| ==> (r[i] == s[i] || IsUpper(s[i]))
    ensures forall i :: 0 <= i < |s| ==> r[i] == if IsUpper(s[i]) then (s[i] as int + 32) as char else s[i]
  {
    seq(|s|, i requires 0 <= i < |s| => LowerChar(s[i]))
  }

  /** Python 2 `str.upper()`: every ASCII small letter becomes capital; nothing else moves. */
  function Upper(s: string): (r: string)
    ensures |r| == |s|
    ensures forall i :: 0 <= i < |r| ==> !IsLower(r[i])
    ensures forall i :: 0 <= i < |r| ==> (r[i] == s[i] || IsLower(s[i]))
    ensures forall i :: 0 <= i < |s| ==> r[i] == if IsLower(s[i]) then (s[i] as int - 32) as char else s[i]
  {
    seq(|s|, i requires 0 <= i < |s| => UpperChar(s[i]))
  }

  // ---------------------------------------------------------------------------
  // str.replace and str.rfind
  // ---------------------------------------------------------------------------

  /** Python `s.replace(pat, rep)`: leftmost, non-overlapping occurrences. */
  function Replace(s: string, pat: string, rep: string): string
    requires |pat| > 0
    decreases |s|
  {
    if |s| < |pat| then s
    else if s[..|pat|] == pat then rep + Replace(s[|pat|..], pat, rep)
    else [s[0]] + Replace(s[1..], pat, rep)
  }

  /** Replacing a single character by text without it leaves no occurrence of it. */
  lemma {:induction false} ReplaceRemoves(s: string, c: char, rep: string)
    requires c !in rep
    ensures c !in Replace(s, [c], rep)
    decreases |s|
  {
    if |s| >= 1 {
      ReplaceRemoves(s[|[c]|..], c, rep);
    }
  }

  /** A character absent from both the input and the replacement stays absent. */
  lemma {:induction false} ReplaceKeepsAbsent(s: string, pat: string, rep: string, c: char)
    requires |pat| > 0 && c !in s && c !in rep
    ensures c !in Replace(s, pat, rep)
    decreases |s|
  {
    if |s| >= |pat| {
      if s[..|pat|] == pat {
        ReplaceKeepsAbsent(s[|pat|..], pat, rep, c);
      } else {
        ReplaceKeepsAbsent(s[1..], pat, rep, c);
      }
    }
  }

  /** Text lacking some character of the pattern has no occurrence to replace. */
  lemma {:induction false} ReplaceAbsent(s: string, pat: string, rep: string, c: char)
    requires |pat| > 0 && c in pat && c !in s
    ensures Replace(s, pat, rep) == s
    decreases |s|
  {
    if |s| >= |pat| {
      assert c !in s[..|pat|];
      ReplaceAbsent(s[1..], pat, rep, c);
      assert [s[0]] + s[1..] == s;
    }
  }

  /** Replacing one character by another is a character-wise map. */
  lemma {:induction false} ReplaceCharAt(s: string, a: char, b: char, i: int)
    requires 0 <= i < |s|
    ensures |Replace(s, [a], [b])| == |s|
    ensures Replace(s, [a], [b])[i] == if s[i] == a then b else s[i]
    decreases |s|
  {
    ReplaceCharLength(s, a, b);
    if i > 0 {
      ReplaceCharAt(s[1..], a, b, i - 1);
      ReplaceCharLength(s[1..], a, b);
    }
  }

  lemma {:induction false} ReplaceCharLength(s: string, a: char, b: char)
    ensures |Replace(s, [a], [b])| == |s|
    decreases |s|
  {
    if |s| >= 1 {
      ReplaceCharLength(s[1..], a, b);
    }
  }

  /** Python `s.rfind(sub)`: the last index where `sub` occurs, or -1. */
  function RFind(s: string, sub: string): (r: int)
    ensures r == -1 || 0 <= r <= |s| - |sub|
    ensures r >= 0 ==> OccursAt(s, sub, r)
    ensures forall j :: r < j ==> !OccursAt(s, sub, j)
    ensures r == -1 <==> forall j :: !OccursAt(s, sub, j)
  {
    RFindFrom(s, sub, |s| - |sub|)
  }

  /** The last occurrence at or before index `i`, or -1. */
  function RFindFrom(s: string, sub: string, i: int): (r: int)
    requires i <= |s| - |sub|
    ensures r == -1 || 0 <= r <= i
    ensures r >= 0 ==> OccursAt(s, sub, r)
    ensures forall j :: r < j <= i ==> !OccursAt(s, sub, j)
    decreases i + 1
  {
    if i < 0 then -1
    else if s[i..i + |sub|] == sub then i
    else RFindFrom(s, sub, i - 1)
  }

  // ---------------------------------------------------------------------------
  // str(n) and int(s)
  // ---------------------------------------------------------------------------

  function DigitChar(d: nat): (c: char)
    requires d < 10
    ensures IsDigit(c)
  {
    (48 + d) as char
  }

  function DigitValue(c: char): nat
    requires IsDigit(c)
  {
    c as int - 48
  }

  /** The value of a string of decimal digits (leading zeros allowed, as in `int`). */
  function DigitsValue(s: string): nat
    requires AllDigits(s)
  {
    if s == [] then 0 else DigitsValue(s[..|s| - 1]) * 10 + DigitValue(s[|s| - 1])
  }

  /** Python `str(n)` for a natural number: canonical decimal digits denoting `n`. */
  function NatToString(n: nat): (r: string)
    ensures |r| >= 1 && AllDigits(r)
    ensures DigitsValue(r) == n
    ensures r[0] == '0' <==> n == 0
    ensures r[0] == '0' ==> |r| == 1
  {
    if n < 10 then [DigitChar(n)]
    else
      var r := NatToString(n / 10) + [DigitChar(n % 10)];
      assert r[..|r| - 1] == NatToString(n / 10);
      r
  }

  /** Distinct numbers print differently. */
  lemma NatToStringInjective(a: nat, b: nat)
    requires NatToString(a) == NatToString(b)
    ensures a == b
  {
  }

  /** Python 2 `int(s)`: surrounding whitespace, an optional sign, whitespace again, then decimal digits. */
  function ParseInt(s: string): Option<int>
  {
    ParseSigned(Trim(s))
  }

  /**
   * An optional sign, then decimal digits, with nothing around them; as in
   * `PyOS_strtol`, whitespace between the sign and the digits is skipped.
   */
  function ParseSigned(t: string): Option<int>
  {
    if |t| == 0 then None
    else if t[0] == '-' || t[0] == '+' then
      var ds := LStrip(t[1..], Whitespace);
      if |ds| > 0 && AllDigits(ds) then
        var v: int := DigitsValue(ds);
        Some(if t[0] == '-' then -v else v)
      else None
    else if AllDigits(t) then
      Some(DigitsValue(t))
    else None
  }

  /**
   * After the sign, `int` skips whitespace (`lstrip`) and reads the digits
   * that follow, so `int('- 7') == -7`.
   */
  lemma ParseSignedAfterSign(t: string, ds: string)
    requires |t| > 0 && (t[0] == '-' || t[0] == '+')
    requires LStrip(t[1..], Whitespace) == ds && |ds| >= 1 && AllDigits(ds)
    ensures ParseSigned(t) == Some(if t[0] == '-' then -(DigitsValue(ds) as int) else DigitsValue(ds) as int)
  {
  }

  /** After the sign, anything but whitespace followed by digits makes `int` raise. */
  lemma ParseSignedAfterSignFails(t: string)
    requires |t| > 0 && (t[0] == '-' || t[0] == '+')
    requires var ds := LStrip(t[1..], Whitespace); ds == [] || !AllDigits(ds)
    ensures ParseSigned(t) == None
  {
  }

  /** `int` reads a non-empty string of digits as its decimal value. */
  lemma ParseIntDigits(s: string)
    requires |s| >= 1 && AllDigits(s)
    ensures ParseInt(s) == Some(DigitsValue(s) as int)
  {
    TrimDigits(s);
    ParseSignedDigits(s);
  }

  /** Digits have no surrounding whitespace to strip. */
  lemma TrimDigits(s: string)
    requires |s| >= 1 && AllDigits(s)
    ensures Trim(s) == s
  {
    assert IsDigit(s[0]) && IsDigit(s[|s| - 1]);
    StripNoop(s, Whitespace);
  }

  lemma ParseSignedDigits(t: string)
    requires |t| >= 1 && AllDigits(t)
    ensures ParseSigned(t) == Some(DigitsValue(t) as int)
  {
    assert IsDigit(t[0]);
  }

  /** `int` inverts `str` on natural numbers. */
  lemma ParseIntOfNatToString(n: nat)
    ensures ParseInt(NatToString(n)) == Some(n)
  {
    ParseIntDigits(NatToString(n));
  }
}
