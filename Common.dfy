/** Shared vocabulary of the downloader model: an Option type, Python's notion
    of whitespace, ASCII digits and case folding, and the string operations
    (strip, startswith, "".join) the downloader relies on. */
module Common {

  datatype Option<T> = None | Some(value: T)

  /** The characters Python's `str.isspace` accepts; the regex class `\s` of a
      `str` pattern and `str.strip()` without arguments use the same set. */
  predicate IsSpace(c: char)
  {
    c == ' ' || ('\t' <= c <= '\r') || ('\U{1C}' <= c <= '\U{1F}')
    || c == '\U{85}' || c == '\U{A0}' || c == '\U{1680}'
    || ('\U{2000}' <= c <= '\U{200A}') || c == '\U{2028}' || c == '\U{2029}'
    || c == '\U{202F}' || c == '\U{205F}' || c == '\U{3000}'
  }

  /** The regex class `[0-9]`. */
  predicate IsDigit(c: char)
  {
    '0' <= c <= '9'
  }

  /** Number of ASCII digits at the start of `s`. */
  function DigitRun(s: string): (n: nat)
    ensures n <= |s|
    ensures forall i :: 0 <= i < n ==> IsDigit(s[i])
    ensures n == |s| || !IsDigit(s[n])
  {
    if s == [] || !IsDigit(s[0]) then 0 else 1 + DigitRun(s[1..])
  }

  function ToLower(c: char): (r: char)
    ensures 'A' <= c <= 'Z' ==> r as int == c as int + 32
    ensures !('A' <= c <= 'Z') ==> r == c
  {
    if 'A' <= c <= 'Z' then (c as int + 32) as char else c
  }

  /** ASCII lower-casing. For the only texts the downloader compares without
      regard to case ("page", "p", "Next") this agrees with Python's Unicode
      folding: no non-ASCII character folds onto one of their letters. */
  function Lower(s: string): (r: string)
    ensures |r| == |s|
    ensures forall i :: 0 <= i < |s| ==> r[i] == ToLower(s[i])
  {
    if s == [] then [] else [ToLower(s[0])] + Lower(s[1..])
  }

  predicate StartsWith(s: string, prefix: string)
  {
    |prefix| <= |s| && s[..|prefix|] == prefix
  }

  /** Python's `t in s` for strings. */
  predicate Contains(s: string, t: string)
    decreases |s|
  {
    StartsWith(s, t) || (s != [] && Contains(s[1..], t))
  }

  /** `t in s` holds exactly when `t` starts at some position of `s`. */
  lemma {:induction false} ContainsIff(s: string, t: string)
    ensures Contains(s, t) <==> exists i :: 0 <= i <= |s| && StartsWith(s[i..], t)
    decreases |s|
  {
    assert s[0..] == s;
    if s != [] {
      ContainsIff(s[1..], t);
      assert forall i :: 1 <= i <= |s| ==> s[1..][i - 1..] == s[i..];
      if exists i :: 0 <= i <= |s| && StartsWith(s[i..], t) {
        var i :| 0 <= i <= |s| && StartsWith(s[i..], t);
        if i > 0 {
          assert StartsWith(s[1..][i - 1..], t);
        }
      }
    }
  }

  /** Number of whitespace characters at the start of `s`. */
  function LeadingSpaces(s: string): (n: nat)
    ensures n <= |s|
    ensures forall i :: 0 <= i < n ==> IsSpace(s[i])
    ensures n == |s| || !IsSpace(s[n])
  {
    if s == [] || !IsSpace(s[0]) then 0 else 1 + LeadingSpaces(s[1..])
  }

  /** Number of whitespace characters at the end of `s`. */
  function TrailingSpaces(s: string): (n: nat)
    ensures n <= |s|
    ensures forall i :: |s| - n <= i < |s| ==> IsSpace(s[i])
    ensures n == |s| || !IsSpace(s[|s| - 1 - n])
  {
    if s == [] || !IsSpace(s[|s| - 1]) then 0 else 1 + TrailingSpaces(s[..|s| - 1])
  }

  /** What `strip` cuts from the front: only spaces, up to a non-space. */
  lemma StripFront(s: string, a: nat, b: nat)
    requires a == LeadingSpaces(s) && a <= b <= |s|
    ensures forall k :: 0 <= k < a ==> IsSpace(s[k])
    ensures a < b ==> !IsSpace(s[a..b][0])
  {
    if a < b {
      assert s[a..b][0] == s[a];
    }
  }

  /** What `strip` cuts from the back: only spaces, after a non-space. */
  lemma StripBack(s: string, a: nat, n: nat)
    requires a <= |s| && n == TrailingSpaces(s[a..])
    ensures a <= |s| - n
    ensures forall k :: |s| - n <= k < |s| ==> IsSpace(s[k])
    ensures a < |s| - n ==> !IsSpace(s[a..|s| - n][|s| - n - a - 1])
  {
    var t := s[a..];
    var b := |s| - n;
    forall k | b <= k < |s|
      ensures IsSpace(s[k])
    {
      assert s[k] == t[k - a];
    }
    if a < b {
      assert t[|t| - 1 - n] == s[b - 1];
      assert s[a..b][b - a - 1] == s[b - 1];
    }
  }

  /** Python's `str.strip()`: the result is a slice of `s` that neither
      starts nor ends with whitespace, and everything cut off is whitespace. */
  function Strip(s: string): (r: string)
    ensures |r| <= |s|
    ensures r == [] || (!IsSpace(r[0]) && !IsSpace(r[|r| - 1]))
    ensures exists i, j :: 0 <= i <= j <= |s| && r == s[i..j]
              && (forall k :: 0 <= k < i ==> IsSpace(s[k]))
              && (forall k :: j <= k < |s| ==> IsSpace(s[k]))
  {
    var a := LeadingSpaces(s);
    var n := TrailingSpaces(s[a..]);
    StripBack(s, a, n);
    StripFront(s, a, |s| - n);
    s[a..|s| - n]
  }

  /** A non-empty text is its first character followed by the rest. */
  lemma ConsSplit(p: string, rest: string)
    requires p != []
    ensures [p[0]] + (p[1..] + rest) == p + rest
  {
    assert [p[0]] + p[1..] == p;
  }

  /** Python's `"".join(xs)`. */
  function Concat(xs: seq<string>): string
  {
    if xs == [] then [] else xs[0] + Concat(xs[1..])
  }
}
