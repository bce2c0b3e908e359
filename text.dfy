/**
 * The handful of Python `str`/`bytes` operations the parsers rely on, with
 * their Python semantics: `strip()`, `split(sep)`, `int()` on decimal text,
 * `"%d"`, `bytes.splitlines()`, `startswith`/`endswith` and
 * `os.path.basename`.
 */
module Text {
  import opened Wrappers

  /** One byte of raw file or pipe content. */
  type byte = b: int | 0 <= b < 256

  // ---------------------------------------------------------------------------
  // Whitespace and stripping
  // ---------------------------------------------------------------------------

  /** The characters for which Python's `str.isspace()` holds; `str.strip()` removes exactly these. */
  predicate IsSpace(c: char) {
    || c == ' '
    || ('\t' <= c <= '\r')
    || ('\U{1c}' <= c <= '\U{1f}')
    || c == '\U{85}' || c == '\U{a0}' || c == '\U{1680}'
    || ('\U{2000}' <= c <= '\U{200a}')
    || c == '\U{2028}' || c == '\U{2029}' || c == '\U{202f}' || c == '\U{205f}' || c == '\U{3000}'
  }

  /** The bytes `bytes.strip()` removes: space, tab, LF, VT, FF, CR. */
  predicate IsAsciiSpace(b: byte) {
    b == 32 || 9 <= b <= 13
  }

  /** Index of the first character at or after `i` that does not satisfy `p` (or `|s|`). */
  function SkipWhile<T>(s: seq<T>, i: nat, p: T -> bool): (j: nat)
    requires i <= |s|
    ensures i <= j <= |s|
    ensures forall k :: i <= k < j ==> p(s[k])
    ensures j < |s| ==> !p(s[j])
    decreases |s| - i
  {
    if i == |s| || !p(s[i]) then i else SkipWhile(s, i + 1, p)
  }

  /** Largest `k` in `lo..j` such that `s[k..j]` consists of `p` characters only. */
  function TrimBack<T>(s: seq<T>, lo: nat, j: nat, p: T -> bool): (k: nat)
    requires lo <= j <= |s|
    ensures lo <= k <= j
    ensures forall m :: k <= m < j ==> p(s[m])
    ensures k > lo ==> !p(s[k - 1])
    decreases j
  {
    if j == lo || !p(s[j - 1]) then j else TrimBack(s, lo, j - 1, p)
  }

  /** `s` without its leading and trailing `p` characters. */
  function StripWith<T>(s: seq<T>, p: T -> bool): (r: seq<T>)
    ensures |r| <= |s|
    ensures r == [] <==> forall k :: 0 <= k < |s| ==> p(s[k])
    ensures r != [] ==> !p(r[0]) && !p(r[|r| - 1])
  {
    var i := SkipWhile(s, 0, p);
    var j := TrimBack(s, i, |s|, p);
    assert s[i..j] == [] ==> i == j;
    s[i..j]
  }

  /** The longest prefix of `s` whose elements satisfy `p`, and the rest. */
  function Span<T>(s: seq<T>, p: T -> bool): (r: (seq<T>, seq<T>))
    ensures r.0 + r.1 == s
    ensures forall k :: 0 <= k < |r.0| ==> p(r.0[k])
    ensures r.1 != [] ==> !p(r.1[0])
  {
    var k := SkipWhile(s, 0, p);
    assert s[..k] + s[k..] == s;
    (s[..k], s[k..])
  }

  /** A run of `p` elements followed by a non-`p` element (or nothing) is split at that point. */
  lemma SpanOf<T>(w: seq<T>, tail: seq<T>, p: T -> bool)
    requires forall k :: 0 <= k < |w| ==> p(w[k])
    requires tail == [] || !p(tail[0])
    ensures Span(w + tail, p) == (w, tail)
  {
    var s := w + tail;
    SkipWhileStops(s, 0, |w|, p);
    assert s[..|w|] == w && s[|w|..] == tail;
  }

  lemma {:induction false} SkipWhileStops<T>(s: seq<T>, i: nat, j: nat, p: T -> bool)
    requires i <= j <= |s|
    requires forall k :: i <= k < j ==> p(s[k])
    requires j == |s| || !p(s[j])
    ensures SkipWhile(s, i, p) == j
    decreases j - i
  {
    if i < j {
      SkipWhileStops(s, i + 1, j, p);
    }
  }

  /** Python's `str.strip()`. */
  function Strip(s: string): string {
    StripWith(s, IsSpace)
  }

  /** Python's `bytes.strip()`. */
  function StripBytes(s: seq<byte>): seq<byte> {
    StripWith(s, IsAsciiSpace)
  }

  /** A string that begins and ends with a non-`p` character is left alone by stripping. */
  lemma StripWithTrimmed<T>(s: seq<T>, p: T -> bool)
    requires s == [] || (!p(s[0]) && !p(s[|s| - 1]))
    ensures StripWith(s, p) == s
  {
  }

  /** Stripping twice is stripping once (`from_proc_modules_line` strips a line its caller already stripped). */
  lemma StripIdempotent(s: string)
    ensures Strip(Strip(s)) == Strip(s)
  {
    StripWithTrimmed(Strip(s), IsSpace);
  }

  /** The stripped, non-blank lines of a text file, in order (the `for line in fp` loops of the parsers). */
  function StrippedNonBlank(lines: seq<string>): (r: seq<string>)
    ensures |r| <= |lines|
  {
    if lines == [] then []
    else
      var head := Strip(lines[0]);
      (if head == [] then [] else [head]) + StrippedNonBlank(lines[1..])
  }

  /** Every line handed to a parser is non-blank and already stripped. */
  lemma {:induction false} StrippedNonBlankLines(lines: seq<string>)
    ensures forall i :: 0 <= i < |StrippedNonBlank(lines)| ==>
      StrippedNonBlank(lines)[i] != [] && Strip(StrippedNonBlank(lines)[i]) == StrippedNonBlank(lines)[i]
    decreases |lines|
  {
    if lines != [] {
      var head := Strip(lines[0]);
      var rest := StrippedNonBlank(lines[1..]);
      StripIdempotent(lines[0]);
      StrippedNonBlankLines(lines[1..]);
      var r := StrippedNonBlank(lines);
      assert r == (if head == [] then [] else [head]) + rest;
      forall i | 0 <= i < |r| ensures r[i] != [] && Strip(r[i]) == r[i] {
        if head != [] && i > 0 {
          assert r[i] == rest[i - 1];
        }
      }
    }
  }

  lemma {:induction false} StrippedNonBlankAppend(a: seq<string>, b: seq<string>)
    ensures StrippedNonBlank(a + b) == StrippedNonBlank(a) + StrippedNonBlank(b)
    decreases |a|
  {
    if a == [] {
      assert a + b == b;
    } else {
      var head := if Strip(a[0]) == [] then [] else [Strip(a[0])];
      assert (a + b)[0] == a[0];
      assert (a + b)[1..] == a[1..] + b;
      assert StrippedNonBlank(a + b) == head + StrippedNonBlank(a[1..] + b);
      StrippedNonBlankAppend(a[1..], b);
      assert head + (StrippedNonBlank(a[1..]) + StrippedNonBlank(b)) ==
        (head + StrippedNonBlank(a[1..])) + StrippedNonBlank(b);
    }
  }

  // ---------------------------------------------------------------------------
  // Splitting and joining on one separator character
  // ---------------------------------------------------------------------------

  /** Python's `s.split(sep)` for a one-character separator: never empty, pieces free of `sep`. */
  function Split(s: string, sep: char): (r: seq<string>)
    ensures |r| >= 1
    ensures forall i :: 0 <= i < |r| ==> sep !in r[i]
    decreases |s|
  {
    if s == [] then [[]]
    else
      var rest := Split(s[1..], sep);
      if s[0] == sep then [[]] + rest else [[s[0]] + rest[0]] + rest[1..]
  }

  /** Python's `sep.join(pieces)`. */
  function Join(pieces: seq<string>, sep: char): string
    requires |pieces| >= 1
  {
    if |pieces| == 1 then pieces[0] else pieces[0] + [sep] + Join(pieces[1..], sep)
  }

  /** Joining the pieces of a split gives back the text. */
  lemma {:induction false} JoinSplit(s: string, sep: char)
    ensures Join(Split(s, sep), sep) == s
    decreases |s|
  {
    if s != [] {
      JoinSplit(s[1..], sep);
      var rest := Split(s[1..], sep);
      if s[0] != sep && |rest| > 1 {
        assert Join(rest, sep) == rest[0] + [sep] + Join(rest[1..], sep);
      }
    }
  }

  lemma {:induction false} SplitPiece(a: string, sep: char)
    requires sep !in a
    ensures Split(a, sep) == [a]
    decreases |a|
  {
    if a != [] {
      SplitPiece(a[1..], sep);
      assert [a[0]] + a[1..] == a;
    }
  }

  lemma {:induction false} SplitPrefix(a: string, t: string, sep: char)
    requires sep !in a
    ensures Split(a + [sep] + t, sep) == [a] + Split(t, sep)
    decreases |a|
  {
    if a == [] {
      assert (a + [sep] + t)[1..] == t;
    } else {
      assert (a + [sep] + t)[1..] == a[1..] + [sep] + t;
      SplitPrefix(a[1..], t, sep);
      assert [a[0]] + a[1..] == a;
    }
  }

  /** Splitting a join of separator-free pieces gives back the pieces. */
  lemma {:induction false} SplitJoin(pieces: seq<string>, sep: char)
    requires |pieces| >= 1
    requires forall i :: 0 <= i < |pieces| ==> sep !in pieces[i]
    ensures Split(Join(pieces, sep), sep) == pieces
    decreases |pieces|
  {
    if |pieces| == 1 {
      SplitPiece(pieces[0], sep);
    } else {
      SplitJoin(pieces[1..], sep);
      SplitPrefix(pieces[0], Join(pieces[1..], sep), sep);
      assert [pieces[0]] + pieces[1..] == pieces;
    }
  }

  // ---------------------------------------------------------------------------
  // Decimal integers
  // ---------------------------------------------------------------------------

  /** ASCII decimal digit (the model's reading of regex `\d` and of `int()`'s digits). */
  predicate IsDigit(c: char) { '0' <= c <= '9' }

  /** One or more ASCII digits. */
  predicate IsDigits(s: string) {
    |s| > 0 && forall i :: 0 <= i < |s| ==> IsDigit(s[i])
  }

  function DigitValue(c: char): nat
    requires IsDigit(c)
  {
    c as int - '0' as int
  }

  /** The value of a decimal digit string, leading zeros allowed (`int("00042") == 42`). */
  function DigitsValue(s: string): nat
    requires forall i :: 0 <= i < |s| ==> IsDigit(s[i])
    decreases |s|
  {
    if s == [] then 0 else DigitsValue(s[..|s| - 1]) * 10 + DigitValue(s[|s| - 1])
  }

  function DigitChar(d: nat): (c: char)
    requires d < 10
    ensures IsDigit(c) && DigitValue(c) == d
  {
    ('0' as int + d) as char
  }

  /** Shortest decimal text of `n`. */
  function FormatNat(n: nat): (r: string)
    ensures IsDigits(r)
    ensures r[0] != '-'
    decreases n
  {
    if n < 10 then [DigitChar(n)] else FormatNat(n / 10) + [DigitChar(n % 10)]
  }

  lemma {:induction false} FormatNatValue(n: nat)
    ensures DigitsValue(FormatNat(n)) == n
    decreases n
  {
    if n >= 10 {
      FormatNatValue(n / 10);
      var r := FormatNat(n);
      assert r[..|r| - 1] == FormatNat(n / 10);
    }
  }

  /**
   * Python's `int(s)` restricted to ASCII text: an optional `+` or `-` sign
   * followed by one or more decimal digits; anything else is `None` (the
   * original raises `ValueError`).
   */
  function ParseInt(s: string): Option<int> {
    if |s| > 0 && (s[0] == '-' || s[0] == '+') && IsDigits(s[1..]) then
      var v: int := DigitsValue(s[1..]);
      Some(if s[0] == '-' then -v else v)
    else if IsDigits(s) then Some(DigitsValue(s))
    else None
  }

  /** Python's `"%d" % n`. */
  function FormatInt(n: int): (r: string)
    ensures |r| > 0
    ensures forall i :: 0 <= i < |r| ==> IsDigit(r[i]) || r[i] == '-'
  {
    if n < 0 then "-" + FormatNat(-n) else FormatNat(n)
  }

  /** `int("%d" % n) == n`. */
  lemma FormatIntParses(n: int)
    ensures ParseInt(FormatInt(n)) == Some(n)
  {
    if n < 0 {
      FormatNatValue(-n);
      assert FormatInt(n)[1..] == FormatNat(-n);
    } else {
      FormatNatValue(n);
    }
  }

  /** Decimal text carries no separator character of the passwd format. */
  lemma FormatIntHasNo(n: int, c: char)
    requires !IsDigit(c) && c != '-'
    ensures c !in FormatInt(n)
  {
  }

  // ---------------------------------------------------------------------------
  // Prefixes, suffixes, lines, paths
  // ---------------------------------------------------------------------------

  /** Python's `s.startswith(prefix)`. */
  predicate StartsWith(s: string, prefix: string) {
    |prefix| <= |s| && s[..|prefix|] == prefix
  }

  /** Python's `s.endswith(suffix)`. */
  predicate EndsWith(s: string, suffix: string) {
    |suffix| <= |s| && s[|s| - |suffix|..] == suffix
  }

  /** LF or CR: the line boundaries of `bytes.splitlines()`. */
  predicate IsLineBreak(b: byte) { b == 10 || b == 13 }

  predicate InLine(b: byte) { !IsLineBreak(b) }

  predicate NoLineBreak(l: seq<byte>) {
    forall m :: 0 <= m < |l| ==> !IsLineBreak(l[m])
  }

  function LinesFrom(s: seq<byte>, i: nat): (r: seq<seq<byte>>)
    requires i <= |s|
    ensures forall k :: 0 <= k < |r| ==> NoLineBreak(r[k])
    decreases |s| - i
  {
    if i == |s| then []
    else
      var e := SkipWhile(s, i, InLine);
      var next := if e == |s| then e
                  else if s[e] == 13 && e + 1 < |s| && s[e + 1] == 10 then e + 2
                  else e + 1;
      [s[i..e]] + LinesFrom(s, next)
  }

  /**
   * Python's `bytes.splitlines()`: lines end at LF, CR or CR LF; empty
   * content has no lines and a final line break adds no empty line.
   */
  function SplitLines(s: seq<byte>): (r: seq<seq<byte>>)
    ensures forall k :: 0 <= k < |r| ==> NoLineBreak(r[k])
  {
    LinesFrom(s, 0)
  }

  /** Lines separated by LF, with no LF after the last. */
  function JoinLines(ls: seq<seq<byte>>): seq<byte>
    decreases |ls|
  {
    if ls == [] then []
    else if |ls| == 1 then ls[0]
    else ls[0] + [10] + JoinLines(ls[1..])
  }

  /** A line that starts at `i` and is ended by LF at `e`, or by the end of the text. */
  lemma LinesFromAt(s: seq<byte>, i: nat, e: nat)
    requires i <= e <= |s| && i < |s|
    requires forall k :: i <= k < e ==> InLine(s[k])
    requires e < |s| ==> s[e] == 10
    ensures e == |s| ==> LinesFrom(s, i) == [s[i..e]] + LinesFrom(s, e)
    ensures e < |s| ==> LinesFrom(s, i) == [s[i..e]] + LinesFrom(s, e + 1)
  {
    SkipWhileStops(s, i, e, InLine);
  }

  /** From `i` on, `s` holds the lines `ls`, each but the last followed by LF. */
  ghost predicate LinesAt(s: seq<byte>, i: nat, ls: seq<seq<byte>>)
    decreases |ls|
  {
    if ls == [] then i == |s|
    else
      var e := i + |ls[0]|;
      && e <= |s| && s[i..e] == ls[0]
      && if |ls| == 1 then e == |s| else e < |s| && s[e] == 10 && LinesAt(s, e + 1, ls[1..])
  }

  /** Where the text from `i` on is a join of lines, the first line is the text up to the first LF. */
  lemma JoinLinesSplit(s: seq<byte>, i: nat, ls: seq<seq<byte>>)
    requires i <= |s| && s[i..] == JoinLines(ls) && ls != []
    ensures i + |ls[0]| <= |s| && s[i..i + |ls[0]|] == ls[0]
    ensures |ls| == 1 ==> i + |ls[0]| == |s|
    ensures |ls| > 1 ==> i + |ls[0]| < |s| && s[i + |ls[0]|] == 10 && s[i + |ls[0]| + 1..] == JoinLines(ls[1..])
  {
    var l := ls[0];
    if |ls| > 1 {
      assert s[i..] == l + ([10] + JoinLines(ls[1..]));
      assert s[i..][|l|] == 10;
      assert s[i + |l| + 1..] == s[i..][|l| + 1..];
    }
    assert s[i..][..|l|] == l;
  }

  /** The text from `i` on being the join of `ls` places the lines as `LinesAt` says. */
  lemma {:induction false} JoinedLinesAt(s: seq<byte>, i: nat, ls: seq<seq<byte>>)
    requires i <= |s| && s[i..] == JoinLines(ls)
    ensures LinesAt(s, i, ls)
    decreases |ls|
  {
    if ls == [] {
      assert |s[i..]| == 0;
    } else {
      JoinLinesSplit(s, i, ls);
      if |ls| > 1 {
        JoinedLinesAt(s, i + |ls[0]| + 1, ls[1..]);
      }
    }
  }

  /** Two or more lines: the first, ended by LF, then those read after it. */
  lemma LinesFromCons(s: seq<byte>, i: nat, ls: seq<seq<byte>>)
    requires |ls| > 1 && LinesAt(s, i, ls) && NoLineBreak(ls[0])
    requires i + |ls[0]| + 1 <= |s| && LinesFrom(s, i + |ls[0]| + 1) == ls[1..]
    ensures LinesFrom(s, i) == ls
  {
    var l := ls[0];
    forall k | i <= k < i + |l| ensures InLine(s[k]) {
      assert s[k] == l[k - i];
    }
    LinesFromAt(s, i, i + |l|);
    assert [l] + ls[1..] == ls;
  }

  /** The last line, ended by the end of the text. */
  lemma LinesFromLast(s: seq<byte>, i: nat, ls: seq<seq<byte>>)
    requires |ls| == 1 && LinesAt(s, i, ls) && NoLineBreak(ls[0]) && ls[0] != []
    ensures LinesFrom(s, i) == ls
  {
    var l := ls[0];
    forall k | i <= k < i + |l| ensures InLine(s[k]) {
      assert s[k] == l[k - i];
    }
    LinesFromAt(s, i, |s|);
    assert LinesFrom(s, |s|) == [];
  }

  /** The lines after the first are placed from just after its LF. */
  lemma LinesAtTail(s: seq<byte>, i: nat, ls: seq<seq<byte>>)
    requires |ls| > 1 && LinesAt(s, i, ls)
    ensures i + |ls[0]| + 1 <= |s| && LinesAt(s, i + |ls[0]| + 1, ls[1..])
  {
    LinesAtBound(s, i + |ls[0]| + 1, ls[1..]);
  }

  lemma {:induction false} LinesAtBound(s: seq<byte>, i: nat, ls: seq<seq<byte>>)
    requires LinesAt(s, i, ls)
    ensures i <= |s|
    decreases |ls|
  {
    if |ls| > 1 {
      LinesAtBound(s, i + |ls[0]| + 1, ls[1..]);
    }
  }

  /** The lines read from `i` on, when `s` holds the lines `ls` from there. */
  lemma {:induction false} LinesFromLinesAt(s: seq<byte>, i: nat, ls: seq<seq<byte>>)
    requires i <= |s| && LinesAt(s, i, ls)
    requires forall k :: 0 <= k < |ls| ==> NoLineBreak(ls[k])
    requires ls != [] ==> ls[|ls| - 1] != []
    ensures LinesFrom(s, i) == ls
    decreases |ls|
  {
    if ls == [] {
    } else if |ls| == 1 {
      LinesFromLast(s, i, ls);
    } else {
      LinesTail(ls);
      LinesAtTail(s, i, ls);
      LinesFromLinesAt(s, i + |ls[0]| + 1, ls[1..]);
      LinesFromCons(s, i, ls);
    }
  }

  /** The lines after the first keep the conditions on all of them. */
  lemma LinesTail(ls: seq<seq<byte>>)
    requires |ls| > 1 && ls[|ls| - 1] != []
    requires forall k :: 0 <= k < |ls| ==> NoLineBreak(ls[k])
    ensures forall k :: 0 <= k < |ls[1..]| ==> NoLineBreak(ls[1..][k])
    ensures ls[1..][|ls[1..]| - 1] != []
  {
    assert ls[1..][|ls[1..]| - 1] == ls[|ls| - 1];
  }

  /** The join starts with the first line's first byte and ends with the last line's last byte. */
  lemma {:induction false} JoinLinesEnds(ls: seq<seq<byte>>)
    requires ls != [] && forall k :: 0 <= k < |ls| ==> ls[k] != []
    ensures var j := JoinLines(ls); j != [] && j[0] == ls[0][0] && j[|j| - 1] == ls[|ls| - 1][|ls[|ls| - 1]| - 1]
    decreases |ls|
  {
    if |ls| > 1 {
      JoinLinesEnds(ls[1..]);
    }
  }

  /** Lines without line breaks, the last not empty, are split back out of their join. */
  lemma SplitLinesJoin(ls: seq<seq<byte>>)
    requires forall k :: 0 <= k < |ls| ==> NoLineBreak(ls[k])
    requires ls != [] ==> ls[|ls| - 1] != []
    ensures SplitLines(JoinLines(ls)) == ls
  {
    JoinedLinesAt(JoinLines(ls), 0, ls);
    LinesFromLinesAt(JoinLines(ls), 0, ls);
  }

  /** A final LF goes when text that begins and ends with a non-blank byte is stripped. */
  lemma StripBytesFinalBreak(s: seq<byte>)
    requires s != [] && !IsAsciiSpace(s[0]) && !IsAsciiSpace(s[|s| - 1])
    ensures StripBytes(s + [10]) == s
  {
    var t := s + [10];
    SkipWhileStops(t, 0, 0, IsAsciiSpace);
    assert TrimBack(t, 0, |t|, IsAsciiSpace) == |s|;
    assert t[0..|s|] == s;
  }

  /** Index of the last `c` in `s`, or -1 (Python's `rfind`). */
  function LastIndexOf(s: string, c: char): (i: int)
    ensures -1 <= i < |s|
    ensures i >= 0 ==> s[i] == c
    ensures forall k :: i < k < |s| ==> s[k] != c
    decreases |s|
  {
    if s == [] then -1
    else if s[|s| - 1] == c then |s| - 1
    else LastIndexOf(s[..|s| - 1], c)
  }

  /** `os.path.basename(path)`: the text after the last `/`. */
  function Basename(path: string): string {
    path[LastIndexOf(path, '/') + 1..]
  }

  /** The base name is a suffix of the path without a `/`. */
  lemma BasenameIsLastPart(path: string)
    ensures '/' !in Basename(path)
    ensures EndsWith(path, Basename(path))
  {
    var i := LastIndexOf(path, '/');
    var tail := path[i + 1..];
    assert |path| - |tail| == i + 1;
    forall k | 0 <= k < |tail| ensures tail[k] != '/' {
      assert tail[k] == path[i + 1 + k];
      assert i < i + 1 + k < |path|;
    }
  }

  /** `s.replace(c, "")`. */
  function RemoveAll(s: string, c: char): (r: string)
    ensures c !in r
    ensures |r| <= |s|
    ensures forall x :: x in r <==> x in s && x != c
    decreases |s|
  {
    if s == [] then []
    else (if s[0] == c then [] else [s[0]]) + RemoveAll(s[1..], c)
  }

  /** Removing `c` from text without it, padded with copies of `c`, leaves the text. */
  lemma {:induction false} RemoveAllPadding(s: string, c: char, k: nat)
    requires c !in s
    ensures RemoveAll(s + seq(k, _ => c), c) == s
    decreases |s| + k
  {
    var t := s + seq(k, _ => c);
    if s != [] {
      assert t[0] == s[0] && t[1..] == s[1..] + seq(k, _ => c);
      RemoveAllPadding(s[1..], c, k);
    } else if k > 0 {
      assert t == [c] + seq(k - 1, _ => c);
      RemoveAllPadding([], c, k - 1);
      assert [] + seq(k - 1, _ => c) == seq(k - 1, _ => c);
    } else {
      assert t == [];
    }
  }

  /** `c.lower()` for ASCII letters; other characters are unchanged. */
  function LowerAscii(c: char): char {
    if 'A' <= c <= 'Z' then (c as int + 32) as char else c
  }

  /** `c.upper()` for ASCII letters; other characters are unchanged. */
  function UpperAscii(c: char): char {
    if 'a' <= c <= 'z' then (c as int - 32) as char else c
  }

  function Lower(s: string): (r: string)
    ensures |r| == |s|
    ensures forall i :: 0 <= i < |s| ==> r[i] == LowerAscii(s[i])
  {
    seq(|s|, i requires 0 <= i < |s| => LowerAscii(s[i]))
  }
}
