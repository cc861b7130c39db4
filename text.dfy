/** The Python string operations the core relies on, restricted to ASCII:
    `str.isspace`, `strip`, `lower`, `split(sep)`, `split()`, `' '.join`,
    the substring test `a in b`, and `str(n)` for a natural number. */
module Text {

  /** `c.isspace()` for ASCII: space, tab, line feed, vertical tab, form feed,
      carriage return and the four separators 0x1C-0x1F. */
  predicate IsSpace(c: char) {
    c == ' ' || (9 <= c as int <= 13) || (28 <= c as int <= 31)
  }

  predicate NoSpace(s: string) {
    forall i :: 0 <= i < |s| ==> !IsSpace(s[i])
  }

  // ---------------------------------------------------------------------------
  // strip()

  function LStrip(s: string): string {
    if s != [] && IsSpace(s[0]) then LStrip(s[1..]) else s
  }

  function RStrip(s: string): string {
    if s != [] && IsSpace(s[|s| - 1]) then RStrip(s[..|s| - 1]) else s
  }

  /** `s.strip()` */
  function Strip(s: string): string {
    RStrip(LStrip(s))
  }

  /** `lstrip` removes a prefix of white space and stops at the first other character. */
  lemma {:induction false} LStripFacts(s: string)
    ensures |LStrip(s)| <= |s| && LStrip(s) == s[|s| - |LStrip(s)|..]
    ensures LStrip(s) != [] ==> !IsSpace(LStrip(s)[0])
    ensures forall i :: 0 <= i < |s| - |LStrip(s)| ==> IsSpace(s[i])
  {
    if s != [] && IsSpace(s[0]) {
      var t := s[1..];
      LStripFacts(t);
      assert LStrip(s) == LStrip(t);
      assert t[|t| - |LStrip(t)|..] == s[|s| - |LStrip(s)|..];
      forall i | 0 <= i < |s| - |LStrip(s)| ensures IsSpace(s[i]) {
        if i > 0 {
          assert s[i] == t[i - 1];
        }
      }
    }
  }

  /** `rstrip` removes a suffix of white space and stops at the last other character. */
  lemma {:induction false} RStripFacts(s: string)
    ensures |RStrip(s)| <= |s| && RStrip(s) == s[..|RStrip(s)|]
    ensures RStrip(s) != [] ==> !IsSpace(RStrip(s)[|RStrip(s)| - 1])
    ensures forall i :: |RStrip(s)| <= i < |s| ==> IsSpace(s[i])
  {
    if s != [] && IsSpace(s[|s| - 1]) {
      var t := s[..|s| - 1];
      RStripFacts(t);
      assert RStrip(s) == RStrip(t);
      assert t[..|RStrip(t)|] == s[..|RStrip(s)|];
      forall i | |RStrip(s)| <= i < |s| ensures IsSpace(s[i]) {
        if i < |t| {
          assert s[i] == t[i];
        }
      }
    }
  }

  /** The stripped text is one slice of the text with only white space cut from
      either end, and neither of its ends is white space. */
  lemma StripFacts(s: string)
    ensures |Strip(s)| <= |s| && |LStrip(s)| <= |s|
    ensures var i := |s| - |LStrip(s)|;
      && i + |Strip(s)| <= |s| && Strip(s) == s[i..i + |Strip(s)|]
      && (forall k :: 0 <= k < i ==> IsSpace(s[k]))
      && (forall k :: i + |Strip(s)| <= k < |s| ==> IsSpace(s[k]))
    ensures Strip(s) != [] ==> !IsSpace(Strip(s)[0]) && !IsSpace(Strip(s)[|Strip(s)| - 1])
  {
    var l := LStrip(s);
    LStripFacts(s);
    RStripFacts(l);
    var i := |s| - |l|;
    assert Strip(s) == l[..|Strip(s)|];
    forall k | i + |Strip(s)| <= k < |s| ensures IsSpace(s[k]) {
      assert s[k] == l[k - i];
    }
    if Strip(s) != [] {
      assert Strip(s)[0] == l[0];
    }
  }

  /** A string is blank (`not line.strip()`) exactly when it is all white space. */
  lemma StripEmptyIff(s: string)
    ensures Strip(s) == [] <==> forall i :: 0 <= i < |s| ==> IsSpace(s[i])
  {
    var l := LStrip(s);
    LStripFacts(s);
    RStripFacts(l);
    if Strip(s) == [] {
      assert l == [];
    } else {
      assert !IsSpace(l[0]);
      assert l[0] == s[|s| - |l|];
    }
  }

  // ---------------------------------------------------------------------------
  // lower()

  function LowerChar(c: char): char {
    if 'A' <= c <= 'Z' then (c as int + 32) as char else c
  }

  /** `s.lower()` for ASCII letters; every other character is kept. */
  function Lower(s: string): (r: string)
    ensures |r| == |s|
    ensures forall i :: 0 <= i < |s| ==> r[i] == LowerChar(s[i])
  {
    seq(|s|, i requires 0 <= i < |s| => LowerChar(s[i]))
  }

  predicate IsLower(s: string) { Lower(s) == s }

  lemma LowerIdempotent(s: string)
    ensures Lower(Lower(s)) == Lower(s)
  {
  }

  lemma LowerOfSpaceFree(s: string)
    requires NoSpace(s)
    ensures NoSpace(Lower(s))
  {
  }

  // ---------------------------------------------------------------------------
  // The substring test `a in b`.

  /** `a` occurs in `b` starting at position `i`. */
  predicate OccursAt(a: string, b: string, i: int) {
    0 <= i && i + |a| <= |b| && b[i..i + |a|] == a
  }

  predicate IsSubstring(a: string, b: string) {
    exists i :: 0 <= i <= |b| - |a| && OccursAt(a, b, i)
  }

  lemma SubstringLength(a: string, b: string)
    requires IsSubstring(a, b)
    ensures |a| <= |b|
    ensures |a| == |b| ==> a == b
  {
    var i: int :| 0 <= i <= |b| - |a| && OccursAt(a, b, i);
    if |a| == |b| {
      assert i == 0;
      assert b[0..|b|] == b;
    }
  }

  lemma SubstringTransitive(a: string, b: string, c: string)
    requires IsSubstring(a, b) && IsSubstring(b, c)
    ensures IsSubstring(a, c)
  {
    var i: int :| 0 <= i <= |b| - |a| && OccursAt(a, b, i);
    var j: int :| 0 <= j <= |c| - |b| && OccursAt(b, c, j);
    assert c[j..j + |b|] == b;
    forall k | 0 <= k < |a| ensures c[j + i..j + i + |a|][k] == a[k] {
      assert a[k] == b[i + k];
      assert b[i + k] == c[j + i + k];
    }
    assert c[j + i..j + i + |a|] == a;
    assert OccursAt(a, c, j + i);
  }

  lemma SubstringReflexive(a: string)
    ensures IsSubstring(a, a)
  {
    assert a[0..|a|] == a;
    assert OccursAt(a, a, 0);
  }

  // ---------------------------------------------------------------------------
  // split(sep) and its inverse, join.

  /** `s.split(sep)` for a one-character separator: never empty, and
      `"".split(sep) == [""]`. */
  function Split(s: string, sep: char): (r: seq<string>)
    ensures |r| >= 1
    ensures forall k :: 0 <= k < |r| ==> sep !in r[k]
  {
    if s == [] then [""]
    else
      var t := Split(s[1..], sep);
      if s[0] == sep then [""] + t else [[s[0]] + t[0]] + t[1..]
  }

  function JoinWith(parts: seq<string>, sep: string): string {
    if parts == [] then ""
    else if |parts| == 1 then parts[0]
    else parts[0] + sep + JoinWith(parts[1..], sep)
  }

  /** Splitting and joining again with the same separator gives back the text. */
  lemma {:induction false} SplitJoin(s: string, sep: char)
    ensures JoinWith(Split(s, sep), [sep]) == s
  {
    if s != [] {
      SplitJoin(s[1..], sep);
      var t := Split(s[1..], sep);
      if s[0] == sep {
        assert Split(s, sep) == [""] + t;
        assert s == [sep] + s[1..];
      } else {
        var r := [[s[0]] + t[0]] + t[1..];
        assert Split(s, sep) == r;
        if |t| == 1 {
          assert JoinWith(t, [sep]) == t[0];
        } else {
          assert JoinWith(t, [sep]) == t[0] + [sep] + JoinWith(t[1..], [sep]);
          assert r[1..] == t[1..];
        }
      }
    }
  }

  /** `' '.join(parts)` */
  function JoinSpace(parts: seq<string>): string {
    JoinWith(parts, " ")
  }

  lemma {:induction false} JoinNonEmpty(parts: seq<string>, sep: string)
    requires parts != [] && parts[0] != []
    ensures JoinWith(parts, sep) != []
  {
  }

  // ---------------------------------------------------------------------------
  // split() without a separator: the maximal runs of non-space characters.

  /** Length of the leading run of non-space characters. */
  function WordLength(s: string): (n: nat)
    ensures n <= |s|
    ensures NoSpace(s[..n])
    ensures n < |s| ==> IsSpace(s[n])
  {
    if s == [] || IsSpace(s[0]) then 0
    else
      var n := WordLength(s[1..]);
      assert s[..n + 1] == [s[0]] + s[1..][..n];
      n + 1
  }

  function Words(s: string): (r: seq<string>)
    ensures forall k :: 0 <= k < |r| ==> r[k] != [] && NoSpace(r[k])
    decreases |s|
  {
    if s == [] then []
    else if IsSpace(s[0]) then Words(s[1..])
    else
      var n := WordLength(s);
      [s[..n]] + Words(s[n..])
  }

  /** A non-empty space-free string is its own only word. */
  lemma WordsOfWord(s: string)
    requires s != [] && NoSpace(s)
    ensures Words(s) == [s]
  {
    var n := WordLength(s);
    WordLengthOfNoSpace(s);
    assert s[..n] == s;
    assert s[n..] == [];
  }

  lemma {:induction false} WordLengthOfNoSpace(s: string)
    requires NoSpace(s)
    ensures WordLength(s) == |s|
  {
    if s != [] {
      WordLengthOfNoSpace(s[1..]);
    }
  }

  // ---------------------------------------------------------------------------
  // str(n)

  function DigitChar(d: nat): char
    requires d < 10
  {
    "0123456789"[d]
  }

  /** `str(n)`: decimal digits, most significant first, no leading zero. */
  function NatToString(n: nat): (r: string)
    ensures r != []
    ensures forall i :: 0 <= i < |r| ==> '0' <= r[i] <= '9'
    ensures |r| > 1 ==> r[0] != '0'
  {
    if n < 10 then [DigitChar(n)]
    else NatToString(n / 10) + [DigitChar(n % 10)]
  }

  function DigitsValue(s: string): nat
    requires forall i :: 0 <= i < |s| ==> '0' <= s[i] <= '9'
  {
    if s == [] then 0 else 10 * DigitsValue(s[..|s| - 1]) + (s[|s| - 1] as int - '0' as int)
  }

  /** Reading the digits back gives the number. */
  lemma {:induction false} NatToStringValue(n: nat)
    ensures DigitsValue(NatToString(n)) == n
  {
    if n >= 10 {
      NatToStringValue(n / 10);
      var r := NatToString(n);
      assert r[..|r| - 1] == NatToString(n / 10);
    }
  }
}
