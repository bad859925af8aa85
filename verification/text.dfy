/** The Python string operations the ingestion loop and the request handler
    depend on: `str.strip()`, `os.path.basename`, `str(int)` and `str.join`. */
module Text {

  /** Python's `str.isspace()` for one character: the ASCII controls TAB to CR,
      the separators FS to US, SPACE, NEL, NO-BREAK SPACE and the Unicode
      space separators. */
  predicate IsSpace(c: char) {
    || ('\t' <= c <= '\r')
    || ('\U{1C}' <= c <= '\U{1F}')
    || c == ' '
    || c == '\U{85}'
    || c == '\U{A0}'
    || c == '\U{1680}'
    || ('\U{2000}' <= c <= '\U{200A}')
    || c == '\U{2028}'
    || c == '\U{2029}'
    || c == '\U{202F}'
    || c == '\U{205F}'
    || c == '\U{3000}'
  }

  predicate AllSpace(s: string) {
    forall i :: 0 <= i < |s| ==> IsSpace(s[i])
  }

  /** Every character of `s` from index `i` up to (not including) `j` is whitespace. */
  predicate SpaceBetween(s: string, i: int, j: int)
    requires 0 <= i <= j <= |s|
  {
    forall k :: i <= k < j ==> IsSpace(s[k])
  }

  /** The first index at or after `i` that does not hold whitespace, or `|s|`. */
  function SkipSpace(s: string, i: nat): (j: nat)
    requires i <= |s|
    decreases |s| - i
    ensures i <= j <= |s|
    ensures SpaceBetween(s, i, j)
    ensures j < |s| ==> !IsSpace(s[j])
  {
    if i < |s| && IsSpace(s[i]) then SkipSpace(s, i + 1) else i
  }

  /** The index just after the last non-whitespace character of `s[lo:j]`, or `lo`. */
  function SkipSpaceBack(s: string, lo: nat, j: nat): (k: nat)
    requires lo <= j <= |s|
    decreases j
    ensures lo <= k <= j
    ensures SpaceBetween(s, k, j)
    ensures k > lo ==> !IsSpace(s[k - 1])
  {
    if lo < j && IsSpace(s[j - 1]) then SkipSpaceBack(s, lo, j - 1) else j
  }

  /** Where the stripped text begins in `s`. */
  function StripStart(s: string): nat
    ensures StripStart(s) <= |s|
  {
    SkipSpace(s, 0)
  }

  /** Where the stripped text ends in `s`. */
  function StripEnd(s: string): nat
    ensures StripStart(s) <= StripEnd(s) <= |s|
  {
    SkipSpaceBack(s, StripStart(s), |s|)
  }

  /** `s.strip()`: what is left of `s` once the leading and trailing
      whitespace are dropped. It is empty exactly when `s` is all whitespace,
      and otherwise neither starts nor ends with whitespace. */
  function Strip(s: string): (r: string)
    ensures |r| <= |s|
    ensures |r| == 0 <==> AllSpace(s)
    ensures |r| > 0 ==> !IsSpace(r[0]) && !IsSpace(r[|r| - 1])
  {
    var a, b := StripStart(s), StripEnd(s);
    assert a < b ==> s[a..b][0] == s[a] && s[a..b][b - a - 1] == s[b - 1];
    assert a == b ==> SpaceBetween(s, 0, a) && SpaceBetween(s, a, |s|);
    s[a..b]
  }

  /** The stripped text is the infix of `s` between its leading and its
      trailing whitespace. */
  lemma StripIsInfix(s: string)
    ensures Strip(s) == s[StripStart(s) .. StripEnd(s)]
    ensures AllSpace(s[..StripStart(s)])
    ensures AllSpace(s[StripEnd(s)..])
  {
    var a, b := StripStart(s), StripEnd(s);
    assert SpaceBetween(s, 0, a) && SpaceBetween(s, b, |s|);
    forall k | 0 <= k < a ensures IsSpace(s[..a][k]) {
      assert s[..a][k] == s[k];
    }
    forall k | 0 <= k < |s| - b ensures IsSpace(s[b..][k]) {
      assert s[b..][k] == s[b + k];
    }
  }

  /** Stripping twice changes nothing more than stripping once. */
  lemma StripIdempotent(s: string)
    ensures Strip(Strip(s)) == Strip(s)
  {
  }

  /** The index of the last occurrence of `c` among the first `n` elements of `s`, or -1. */
  function RFindBefore(s: string, c: char, n: nat): (r: int)
    requires n <= |s|
    decreases n
    ensures -1 <= r < n
    ensures r >= 0 ==> s[r] == c
    ensures forall i :: r < i < n ==> s[i] != c
  {
    if n == 0 then -1
    else if s[n - 1] == c then n - 1
    else RFindBefore(s, c, n - 1)
  }

  /** `s.rfind(c)`: the index of the last occurrence of `c` in `s`, or -1. */
  function RFind(s: string, c: char): int {
    RFindBefore(s, c, |s|)
  }

  /** `os.path.basename` on POSIX: `path[path.rfind('/') + 1:]`. */
  function Basename(path: string): (b: string)
    ensures '/' !in b && |b| <= |path|
  {
    var k := RFind(path, '/') + 1;
    assert forall i :: 0 <= i < |path| - k ==> path[k..][i] == path[k + i];
    path[k..]
  }

  /** The basename is the last '/'-separated segment of the path: it holds no
      '/', it is a suffix of the path, and it is either the whole path or is
      preceded by a '/'. */
  lemma BasenameIsLastSegment(path: string)
    ensures forall i :: 0 <= i < |Basename(path)| ==> Basename(path)[i] != '/'
    ensures |Basename(path)| <= |path|
    ensures forall i :: 0 <= i < |Basename(path)| ==> Basename(path)[i] == path[|path| - |Basename(path)| + i]
    ensures |Basename(path)| < |path| ==> path[|path| - |Basename(path)| - 1] == '/'
  {
    var k := RFind(path, '/') + 1;
    assert Basename(path) == path[k..];
  }

  /** A path without any '/' is its own basename. */
  lemma BasenameOfPlainName(path: string)
    requires '/' !in path
    ensures Basename(path) == path
  {
  }

  // ---------------------------------------------------------------------
  // Decimal rendering of a natural number, `str(n)`

  predicate IsDigit(c: char) {
    '0' <= c <= '9'
  }

  predicate AllDigits(s: string) {
    forall i :: 0 <= i < |s| ==> IsDigit(s[i])
  }

  function DigitChar(d: nat): (c: char)
    requires d < 10
  {
    ('0' as int + d) as char
  }

  function DigitValue(c: char): nat
    requires IsDigit(c)
  {
    c as int - '0' as int
  }

  /** `str(n)` for a natural number: digits only, never empty, and no leading
      zero unless `n` is zero. */
  function NatToDecimal(n: nat): (s: string)
    ensures |s| > 0 && AllDigits(s)
    ensures s[0] == '0' ==> n == 0
    decreases n
  {
    if n < 10 then [DigitChar(n)]
    else NatToDecimal(n / 10) + [DigitChar(n % 10)]
  }

  /** The number a string of digits denotes, most significant digit first. */
  function DecimalValue(s: string): nat
    requires AllDigits(s)
    decreases |s|
  {
    if |s| == 0 then 0
    else 10 * DecimalValue(s[..|s| - 1]) + DigitValue(s[|s| - 1])
  }

  /** Reading back `str(n)` gives `n`. */
  lemma {:induction false} DecimalRoundTrip(n: nat)
    decreases n
    ensures DecimalValue(NatToDecimal(n)) == n
  {
    var s := NatToDecimal(n);
    if n >= 10 {
      DecimalRoundTrip(n / 10);
      assert s[..|s| - 1] == NatToDecimal(n / 10);
    }
  }

  // ---------------------------------------------------------------------
  // `sep.join(parts)`

  function Join(sep: string, parts: seq<string>): string
    decreases |parts|
  {
    if |parts| == 0 then []
    else if |parts| == 1 then parts[0]
    else parts[0] + sep + Join(sep, parts[1..])
  }

  /** Where part `i` begins in `Join(sep, parts)`: the lengths of the parts
      before it, each followed by one separator. */
  function PartOffset(sep: string, parts: seq<string>, i: nat): nat
    requires i <= |parts|
    decreases i
  {
    if i == 0 then 0 else |parts[0]| + |sep| + PartOffset(sep, parts[1..], i - 1)
  }

  /** A slice of the second half of a concatenation, read at shifted indices. */
  lemma SliceAfterPrefix<T>(head: seq<T>, tail: seq<T>, a: nat, b: nat)
    requires a <= b <= |tail|
    ensures (head + tail)[|head| + a .. |head| + b] == tail[a..b]
  {
  }

  lemma JoinUnfold(sep: string, parts: seq<string>)
    requires |parts| > 1
    ensures Join(sep, parts) == (parts[0] + sep) + Join(sep, parts[1..])
    ensures Join(sep, parts) == parts[0] + (sep + Join(sep, parts[1..]))
  {
  }

  lemma PartOffsetShift(sep: string, parts: seq<string>, i: nat)
    requires 0 < i < |parts|
    ensures parts[1..][i - 1] == parts[i]
    ensures PartOffset(sep, parts, i) == |parts[0] + sep| + PartOffset(sep, parts[1..], i - 1)
  {
  }

  /** Part `i` sits at `PartOffset(sep, parts, i)` in the joined string, and
      the joined string ends where the last part ends. */
  lemma {:induction false} JoinPlacesPart(sep: string, parts: seq<string>, i: nat)
    requires i < |parts|
    decreases i
    ensures PartOffset(sep, parts, i) + |parts[i]| <= |Join(sep, parts)|
    ensures Join(sep, parts)[PartOffset(sep, parts, i) .. PartOffset(sep, parts, i) + |parts[i]|] == parts[i]
    ensures i + 1 == |parts| ==> |Join(sep, parts)| == PartOffset(sep, parts, i) + |parts[i]|
  {
    if |parts| > 1 {
      JoinUnfold(sep, parts);
      if i > 0 {
        PartOffsetShift(sep, parts, i);
        JoinPlacesPart(sep, parts[1..], i - 1);
        var off' := PartOffset(sep, parts[1..], i - 1);
        SliceAfterPrefix(parts[0] + sep, Join(sep, parts[1..]), off', off' + |parts[i]|);
      } else {
        SliceAfterPrefix(parts[0], sep + Join(sep, parts[1..]), 0, 0);
      }
    }
  }

  /** A separator follows every part but the last in the joined string. */
  lemma {:induction false} JoinSeparatesParts(sep: string, parts: seq<string>, i: nat)
    requires i + 1 < |parts|
    decreases i
    ensures PartOffset(sep, parts, i) + |parts[i]| + |sep| <= |Join(sep, parts)|
    ensures Join(sep, parts)[PartOffset(sep, parts, i) + |parts[i]| .. PartOffset(sep, parts, i) + |parts[i]| + |sep|] == sep
  {
    JoinUnfold(sep, parts);
    if i > 0 {
      PartOffsetShift(sep, parts, i);
      JoinSeparatesParts(sep, parts[1..], i - 1);
      var off' := PartOffset(sep, parts[1..], i - 1);
      SliceAfterPrefix(parts[0] + sep, Join(sep, parts[1..]), off' + |parts[i]|, off' + |parts[i]| + |sep|);
    } else {
      SliceAfterPrefix(parts[0], sep + Join(sep, parts[1..]), 0, |sep|);
    }
  }
}
