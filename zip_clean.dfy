/** The postal-code cleaner `_clean_zip`: take the first run of decimal digits
    of the value's text and left-pad it with zeros to five characters. */
module ZipClean {
  import opened Wrappers

  /** Width that `zfill` pads a cleaned code to. */
  const ZipWidth: nat := 5

  predicate IsDigit(c: char) {
    '0' <= c <= '9'
  }

  predicate AllDigits(s: string) {
    forall k :: 0 <= k < |s| ==> IsDigit(s[k])
  }

  predicate HasDigit(s: string) {
    exists k :: 0 <= k < |s| && IsDigit(s[k])
  }

  function Max(a: int, b: int): int {
    if a >= b then a else b
  }

  /** A string of `n` zero characters. */
  function Zeros(n: nat): (z: string)
    ensures |z| == n && forall k :: 0 <= k < n ==> z[k] == '0'
  {
    seq(n, _ => '0')
  }

  /** Reference characterisation of the match of the pattern `\d+` found by a
      left-to-right search: `s[i..j]` is a non-empty run of digits, no digit
      comes before it, and it cannot be extended to the right. */
  predicate IsFirstRun(s: string, i: int, j: int) {
    0 <= i < j <= |s|
    && (forall k :: 0 <= k < i ==> !IsDigit(s[k]))
    && (forall k :: i <= k < j ==> IsDigit(s[k]))
    && (j == |s| || !IsDigit(s[j]))
  }

  /** The span of a regular-expression match. */
  datatype Span = Span(start: nat, end: nat)

  /** Greedy `\d+` from position `i`: the end of the digit run starting there. */
  function ScanDigits(s: string, i: nat): (j: nat)
    requires i <= |s|
    ensures i <= j <= |s|
    ensures forall k :: i <= k < j ==> IsDigit(s[k])
    ensures j == |s| || !IsDigit(s[j])
    decreases |s| - i
  {
    if i < |s| && IsDigit(s[i]) then ScanDigits(s, i + 1) else i
  }

  /** `re.search(r"\d+", s)` started at position `i`: try each position in
      turn and match greedily at the first one where the pattern matches. */
  function SearchFrom(s: string, i: nat): (m: Option<Span>)
    requires i <= |s|
    ensures m.None? <==> forall k :: i <= k < |s| ==> !IsDigit(s[k])
    ensures m.Some? ==> i <= m.value.start < m.value.end <= |s|
                        && (forall k :: i <= k < m.value.start ==> !IsDigit(s[k]))
                        && (forall k :: m.value.start <= k < m.value.end ==> IsDigit(s[k]))
                        && (m.value.end == |s| || !IsDigit(s[m.value.end]))
    decreases |s| - i
  {
    if i == |s| then None
    else if IsDigit(s[i]) then Some(Span(i, ScanDigits(s, i)))
    else SearchFrom(s, i + 1)
  }

  /** `re.search(r"\d+", s)`: no match exactly when `s` has no digit, and a
      match is the first maximal run of digits. */
  function Search(s: string): (m: Option<Span>)
    ensures m.None? <==> !HasDigit(s)
    ensures m.Some? ==> IsFirstRun(s, m.value.start, m.value.end)
  {
    SearchFrom(s, 0)
  }

  /** `str.zfill(width)`: left-pad with '0' up to `width`; a leading sign
      stays in front of the padding; never truncates. */
  function ZFill(s: string, width: nat): (r: string)
    ensures |r| == Max(width, |s|)
    ensures |s| >= width ==> r == s
  {
    if |s| >= width then s
    else if |s| > 0 && (s[0] == '+' || s[0] == '-') then [s[0]] + Zeros(width - |s|) + s[1..]
    else Zeros(width - |s|) + s
  }

  /** `_clean_zip`. The argument is the value's text `str(z)`, or `None` for
      a null cell. */
  function CleanZip(z: Option<string>): (r: Option<string>)
    ensures r.None? <==> z.None? || !HasDigit(z.value)
    ensures r.Some? ==> AllDigits(r.value) && |r.value| >= ZipWidth
  {
    match z
    case None => None
    case Some(s) =>
      match Search(s)
      case None => None
      case Some(m) => Some(ZFill(s[m.start..m.end], ZipWidth))
  }

  /** A string has at most one first maximal digit run. */
  lemma FirstRunUnique(s: string, i: int, j: int, i': int, j': int)
    requires IsFirstRun(s, i, j) && IsFirstRun(s, i', j')
    ensures i == i' && j == j'
  {
    var lo := if i <= i' then i else i';
    assert IsDigit(s[lo]);
    var hi := if j <= j' then j else j';
    assert hi == |s| || !IsDigit(s[hi]);
  }

  /** How `zfill` pads a string shorter than `width`: zeros go in front of
      it, or right after its leading sign when it has one. */
  lemma ZFillPads(s: string, width: nat)
    requires |s| < width
    ensures var r := ZFill(s, width);
            if |s| > 0 && (s[0] == '+' || s[0] == '-') then
              r[0] == s[0] && r[|r| - (|s| - 1)..] == s[1..]
              && forall k :: 1 <= k < |r| - (|s| - 1) ==> r[k] == '0'
            else
              r[|r| - |s|..] == s && forall k :: 0 <= k < |r| - |s| ==> r[k] == '0'
  {
  }

  /** On a digit string `zfill` is pure left padding with zeros. */
  lemma ZFillDigits(s: string, width: nat)
    requires AllDigits(s)
    ensures ZFill(s, width) == Zeros(Max(width, |s|) - |s|) + s
  {
  }

  /** The cleaned code, for an input whose first digit run is `s[i..j]`: it
      ends with exactly that run, is `Max(5, j - i)` long and only zeros come
      before the run. */
  lemma CleanZipOfFirstRun(s: string, i: int, j: int)
    requires IsFirstRun(s, i, j)
    ensures CleanZip(Some(s)) == Some(Zeros(Max(ZipWidth, j - i) - (j - i)) + s[i..j])
    ensures var r := CleanZip(Some(s)).value;
            |r| == Max(ZipWidth, j - i)
            && r[|r| - (j - i)..] == s[i..j]
            && forall k :: 0 <= k < |r| - (j - i) ==> r[k] == '0'
  {
    assert IsDigit(s[i]);
    var m := Search(s).value;
    FirstRunUnique(s, i, j, m.start, m.end);
    ZFillDigits(s[i..j], ZipWidth);
  }

  /** Only the first digit run is kept: whatever follows a non-digit after it
      is dropped (so "98101-1234" is cleaned to "98101"). */
  lemma OnlyFirstRunKept(a: string, c: char, b: string)
    requires HasDigit(a) && !IsDigit(c)
    ensures CleanZip(Some(a + [c] + b)) == CleanZip(Some(a))
  {
    var m := Search(a).value;
    var s := a + [c] + b;
    assert IsFirstRun(s, m.start, m.end);
    CleanZipOfFirstRun(s, m.start, m.end);
    CleanZipOfFirstRun(a, m.start, m.end);
    assert s[m.start..m.end] == a[m.start..m.end];
  }

  /** A ZIP+4 code keeps only its five-digit part. */
  lemma NineDigitCodeWithDash()
    ensures CleanZip(Some("98101-1234")) == Some("98101")
  {
    OnlyFirstRunKept("98101", '-', "1234");
    assert "98101" + ['-'] + "1234" == "98101-1234";
    CleanZipKeepsLongCode("98101");
  }

  /** A digit string of five or more characters comes back unchanged. */
  lemma CleanZipKeepsLongCode(s: string)
    requires AllDigits(s) && |s| >= ZipWidth
    ensures CleanZip(Some(s)) == Some(s)
  {
    assert IsFirstRun(s, 0, |s|);
    CleanZipOfFirstRun(s, 0, |s|);
    assert s[0..|s|] == s;
  }

  /** A non-empty digit string of at most five characters is padded to
      exactly five. */
  lemma CleanZipPadsShortCode(s: string)
    requires AllDigits(s) && 0 < |s| <= ZipWidth
    ensures CleanZip(Some(s)) == Some(Zeros(ZipWidth - |s|) + s)
    ensures |CleanZip(Some(s)).value| == ZipWidth
  {
    assert IsFirstRun(s, 0, |s|);
    CleanZipOfFirstRun(s, 0, |s|);
    assert s[0..|s|] == s;
  }

  /** Cleaning a cleaned code changes nothing. */
  lemma CleanZipIdempotent(z: Option<string>)
    ensures CleanZip(CleanZip(z)) == CleanZip(z)
  {
    var r := CleanZip(z);
    if r.Some? {
      CleanZipKeepsLongCode(r.value);
    }
  }
}
