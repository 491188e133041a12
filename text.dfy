/**
 * The parts of Python's `str` that the subscription code relies on:
 * `isspace`, `strip`, `lower` and the ordering of strings.
 */
module Text {

  /** `str.isspace()` for one character: the ASCII whitespace characters,
      the separators U+001C..U+001F, and the Unicode space separators. */
  predicate IsSpace(c: char) {
    var n := c as int;
    || (9 <= n <= 13)
    || (28 <= n <= 32)
    || n == 0x85 || n == 0xA0 || n == 0x1680
    || (0x2000 <= n <= 0x200A)
    || n == 0x2028 || n == 0x2029 || n == 0x202F || n == 0x205F || n == 0x3000
  }

  /** True of the strings Python treats as "missing": empty or whitespace only. */
  predicate IsBlank(s: string) {
    forall i | 0 <= i < |s| :: IsSpace(s[i])
  }

  predicate IsUpper(c: char) { 'A' <= c <= 'Z' }

  /** An ASCII letter, as the class `[a-zA-Z]` of a regular expression. */
  predicate IsLetter(c: char) { 'A' <= c <= 'Z' || 'a' <= c <= 'z' }

  predicate IsDigit(c: char) { '0' <= c <= '9' }

  function LowerChar(c: char): char {
    if IsUpper(c) then (c as int + 32) as char else c
  }

  /** `str.lower()` restricted to ASCII: upper-case letters become lower-case,
      every other character is kept. */
  function ToLower(s: string): (r: string)
    ensures |r| == |s|
    ensures forall i | 0 <= i < |s| :: r[i] == LowerChar(s[i])
    ensures forall i | 0 <= i < |r| :: !IsUpper(r[i])
  {
    if s == [] then [] else [LowerChar(s[0])] + ToLower(s[1..])
  }

  /** `str.lstrip()`: drops the leading whitespace. */
  function TrimStart(s: string): (r: string)
    ensures |r| <= |s| && r == s[|s| - |r|..]
    ensures forall i | 0 <= i < |s| - |r| :: IsSpace(s[i])
    ensures r == [] || !IsSpace(r[0])
  {
    if s != [] && IsSpace(s[0]) then TrimStart(s[1..]) else s
  }

  /** `str.rstrip()`: drops the trailing whitespace. */
  function TrimEnd(s: string): (r: string)
    ensures |r| <= |s| && r == s[..|r|]
    ensures forall i | |r| <= i < |s| :: IsSpace(s[i])
    ensures r == [] || !IsSpace(r[|r| - 1])
  {
    if s != [] && IsSpace(s[|s| - 1]) then TrimEnd(s[..|s| - 1]) else s
  }

  /** `str.strip()`: the slice of `s` left once whitespace is removed from both
      ends; it is empty exactly when `s` is blank. */
  function Trim(s: string): (r: string)
    ensures r == [] <==> IsBlank(s)
    ensures r != [] ==> !IsSpace(r[0]) && !IsSpace(r[|r| - 1])
    ensures var k := |s| - |TrimStart(s)|; k + |r| <= |s| && r == s[k..][..|r|]
  {
    TrimStartBlank(s);
    TrimEndKeepsNonBlank(TrimStart(s));
    TrimSlice(s);
    TrimEnd(TrimStart(s))
  }

  lemma {:induction false} TrimStartBlank(s: string)
    ensures TrimStart(s) == [] <==> IsBlank(s)
  {
    var r := TrimStart(s);
    if r != [] {
      assert r[0] == s[|s| - |r|];
    }
  }

  lemma TrimEndKeepsNonBlank(t: string)
    requires t == [] || !IsSpace(t[0])
    ensures TrimEnd(t) == [] <==> t == []
  {
  }

  lemma {:induction false} TrimSlice(s: string)
    ensures var k := |s| - |TrimStart(s)|; var r := TrimEnd(TrimStart(s));
      k + |r| <= |s| && r == s[k..][..|r|]
  {
    var t := TrimStart(s);
    var k := |s| - |t|;
    var r := TrimEnd(t);
    forall j | 0 <= j < |r| ensures r[j] == s[k + j] {
      assert r[j] == t[j];
    }
    assert r == s[k..][..|r|];
  }

  /** `lstrip` stops at the first non-space character. */
  lemma {:induction false} TrimStartAt(s: string, a: nat)
    requires a < |s| && !IsSpace(s[a])
    requires forall i | 0 <= i < a :: IsSpace(s[i])
    ensures TrimStart(s) == s[a..]
  {
    var t := TrimStart(s);
    var k := |s| - |t|;
    assert t != [] ==> t[0] == s[k];
    assert k == a;
  }

  /** `rstrip` stops at the last non-space character. */
  lemma {:induction false} TrimEndAt(t: string, n: nat)
    requires 0 < n <= |t| && !IsSpace(t[n - 1])
    requires forall i | n <= i < |t| :: IsSpace(t[i])
    ensures TrimEnd(t) == t[..n]
  {
    var r := TrimEnd(t);
    assert r != [] ==> r[|r| - 1] == t[|r| - 1];
    assert |r| == n;
  }

  /** A suffix keeps the blank tail of the whole string. */
  lemma {:induction false} SuffixTail(s: string, a: nat, b: nat)
    requires a < b <= |s|
    requires forall i | b <= i < |s| :: IsSpace(s[i])
    ensures forall i | b - a <= i < |s| - a :: IsSpace(s[a..][i])
  {
    forall i | b - a <= i < |s| - a ensures IsSpace(s[a..][i]) {
      assert s[a..][i] == s[a + i];
    }
  }

  /** Trim is the only way to cut `s` into a blank head, a body that neither
      starts nor ends with whitespace, and a blank tail. */
  lemma {:induction false} TrimUnique(s: string, a: nat, b: nat)
    requires a <= b <= |s|
    requires forall i | 0 <= i < a :: IsSpace(s[i])
    requires forall i | b <= i < |s| :: IsSpace(s[i])
    requires a < b ==> !IsSpace(s[a]) && !IsSpace(s[b - 1])
    requires a == b ==> IsBlank(s)
    ensures Trim(s) == s[a..b]
  {
    if a < b {
      TrimBody(s, a, b);
    } else {
      assert Trim(s) == [];
    }
  }

  /** `TrimUnique` when the body is not empty. */
  lemma {:induction false} TrimBody(s: string, a: nat, b: nat)
    requires a < b <= |s|
    requires forall i | 0 <= i < a :: IsSpace(s[i])
    requires forall i | b <= i < |s| :: IsSpace(s[i])
    requires !IsSpace(s[a]) && !IsSpace(s[b - 1])
    ensures Trim(s) == s[a..b]
  {
    TrimStartAt(s, a);
    TrimEndOfSuffix(s, a, b);
    TrimIsBothEnds(s);
  }

  /** Once `lstrip` has cut at `a`, `rstrip` cuts at `b`. */
  lemma {:induction false} TrimEndOfSuffix(s: string, a: nat, b: nat)
    requires a < b <= |s|
    requires forall i | b <= i < |s| :: IsSpace(s[i])
    requires !IsSpace(s[b - 1])
    ensures TrimEnd(s[a..]) == s[a..b]
  {
    SuffixTail(s, a, b);
    LastOfSuffix(s, a, b);
    TrimEndAt(s[a..], b - a);
    SliceOfSuffix(s, a, b - a);
  }

  lemma TrimIsBothEnds(s: string)
    ensures Trim(s) == TrimEnd(TrimStart(s))
  {
  }

  lemma LastOfSuffix(s: string, a: nat, b: nat)
    requires a < b <= |s|
    ensures s[a..][b - a - 1] == s[b - 1]
  {
  }

  /** A string with no whitespace at either end is its own `strip()`. */
  lemma TrimKeeps(s: string)
    requires s != [] && !IsSpace(s[0]) && !IsSpace(s[|s| - 1])
    ensures Trim(s) == s
  {
    TrimUnique(s, 0, |s|);
  }

  lemma {:induction false} SliceOfSuffix(s: string, a: nat, n: nat)
    requires a + n <= |s|
    ensures s[a..][..n] == s[a..a + n]
  {
    forall j | 0 <= j < n ensures s[a..][..n][j] == s[a..a + n][j] {
      assert s[a..][..n][j] == s[a + j];
    }
  }

  lemma LowerCharSpace(c: char)
    ensures IsSpace(LowerChar(c)) == IsSpace(c)
  {
  }

  /** Lower-casing keeps whitespace where it was, so it commutes with `lstrip`. */
  lemma {:induction false} TrimStartToLower(s: string)
    ensures TrimStart(ToLower(s)) == ToLower(TrimStart(s))
  {
    if s != [] {
      var l := ToLower(s);
      assert l == [LowerChar(s[0])] + ToLower(s[1..]);
      assert l[1..] == ToLower(s[1..]);
      LowerCharSpace(s[0]);
      if IsSpace(s[0]) { TrimStartToLower(s[1..]); }
    }
  }

  /** Lower-casing keeps whitespace where it was, so it commutes with `rstrip`. */
  lemma {:induction false} TrimEndToLower(s: string)
    ensures TrimEnd(ToLower(s)) == ToLower(TrimEnd(s))
  {
    if s != [] {
      var n := |s| - 1;
      assert ToLower(s)[..n] == ToLower(s[..n]);
      LowerCharSpace(s[n]);
      if IsSpace(s[n]) { TrimEndToLower(s[..n]); }
    }
  }

  /** `s.lower().strip() == s.strip().lower()`. */
  lemma TrimToLower(s: string)
    ensures Trim(ToLower(s)) == ToLower(Trim(s))
  {
    TrimStartToLower(s);
    TrimEndToLower(TrimStart(s));
  }

  lemma TrimIdempotent(s: string)
    ensures Trim(Trim(s)) == Trim(s)
  {
    var r := Trim(s);
    assert TrimStart(r) == r;
    assert TrimEnd(r) == r;
  }

  lemma ToLowerIdempotent(s: string)
    ensures ToLower(ToLower(s)) == ToLower(s)
  {
  }

  /** Python's `<=` on strings: code point by code point, a proper prefix
      first. */
  predicate LexLe(a: string, b: string) {
    a == [] || (b != [] && (a[0] < b[0] || (a[0] == b[0] && LexLe(a[1..], b[1..]))))
  }

  lemma {:induction false} LexLeTotal(a: string, b: string)
    ensures LexLe(a, b) || LexLe(b, a)
  {
    if a != [] && b != [] && a[0] == b[0] {
      LexLeTotal(a[1..], b[1..]);
    }
  }

  lemma {:induction false} LexLeTransitive(a: string, b: string, c: string)
    requires LexLe(a, b) && LexLe(b, c)
    ensures LexLe(a, c)
  {
    if a != [] && a[0] == b[0] && b[0] == c[0] {
      LexLeTransitive(a[1..], b[1..], c[1..]);
    }
  }

  lemma {:induction false} LexLeAntisymmetric(a: string, b: string)
    requires LexLe(a, b) && LexLe(b, a)
    ensures a == b
  {
    if a != [] {
      LexLeAntisymmetric(a[1..], b[1..]);
    }
  }
}
