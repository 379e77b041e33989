/** Normalisation of the register number typed into the result search:
    `trim()` as ECMAScript defines it, then `toUpperCase()`. */
module RegisterNumber {

  /** ECMAScript WhiteSpace and LineTerminator code points, the characters
      `trim()` removes. None of them is a letter or a digit, so trimming never
      eats into a register number. */
  predicate IsWhitespace(c: char): (b: bool)
    ensures b ==> !('0' <= c <= '9') && !('A' <= c <= 'Z') && !IsLowerAscii(c)
  {
    || ('\U{0009}' <= c <= '\U{000D}')
    || c == ' ' || c == '\U{00A0}' || c == '\U{1680}'
    || ('\U{2000}' <= c <= '\U{200A}')
    || c == '\U{2028}' || c == '\U{2029}' || c == '\U{202F}' || c == '\U{205F}'
    || c == '\U{3000}' || c == '\U{FEFF}'
  }

  predicate IsLowerAscii(c: char)
  {
    'a' <= c <= 'z'
  }

  /** Upper-case of one character: ASCII letters only. */
  function UpperChar(c: char): (u: char)
    ensures !IsLowerAscii(u)
    ensures IsLowerAscii(c) ==> 'A' <= u <= 'Z' && u as int - 'A' as int == c as int - 'a' as int
    ensures IsWhitespace(u) == IsWhitespace(c)
    ensures !IsLowerAscii(c) ==> u == c
  {
    if IsLowerAscii(c) then (c as int - 32) as char else c
  }

  /** Index of the first non-whitespace character at or after lo, or |s|. */
  function FirstNonBlank(s: string, lo: nat): (i: nat)
    requires lo <= |s|
    ensures lo <= i <= |s|
    ensures forall k :: lo <= k < i ==> IsWhitespace(s[k])
    ensures i < |s| ==> !IsWhitespace(s[i])
    decreases |s| - lo
  {
    if lo < |s| && IsWhitespace(s[lo]) then FirstNonBlank(s, lo + 1) else lo
  }

  /** One past the last non-whitespace character of s[lo..hi], or lo. */
  function EndNonBlank(s: string, lo: nat, hi: nat): (j: nat)
    requires lo <= hi <= |s|
    ensures lo <= j <= hi
    ensures forall k :: j <= k < hi ==> IsWhitespace(s[k])
    ensures j > lo ==> !IsWhitespace(s[j - 1])
    decreases hi
  {
    if hi > lo && IsWhitespace(s[hi - 1]) then EndNonBlank(s, lo, hi - 1) else hi
  }

  /** `String.prototype.trim`: the stretch from the first to the last
      non-whitespace character. */
  function Trim(s: string): (r: string)
    ensures |r| <= |s|
    ensures (forall k :: 0 <= k < |s| ==> !IsWhitespace(s[k])) ==> r == s
  {
    var i := FirstNonBlank(s, 0);
    s[i..EndNonBlank(s, i, |s|)]
  }

  /** A string with no whitespace at either end. */
  predicate IsTrimmed(s: string)
  {
    s != [] ==> !IsWhitespace(s[0]) && !IsWhitespace(s[|s| - 1])
  }

  /** `toUpperCase`, on ASCII letters: same length, position by position. */
  function ToUpper(s: string): (r: string)
    ensures |r| == |s|
    ensures forall i :: 0 <= i < |s| ==> r[i] == UpperChar(s[i])
  {
    seq(|s|, i requires 0 <= i < |s| => UpperChar(s[i]))
  }

  /** The key looked up: `registerNumber.trim().toUpperCase()`, a trimmed
      string no longer than the input and free of lower-case ASCII letters. */
  function Normalize(s: string): (r: string)
    ensures |r| <= |s|
    ensures IsTrimmed(r)
    ensures forall k :: 0 <= k < |r| ==> !IsLowerAscii(r[k])
  {
    TrimIsTrimmed(s);
    ToUpperIdempotent(Trim(s));
    ToUpper(Trim(s))
  }

  // ---------------------------------------------------------------------------

  /** Everything of `s` before index i and from index j on is whitespace. */
  predicate WhitespaceOutside(s: string, i: nat, j: nat)
  {
    && (forall k :: 0 <= k < i && k < |s| ==> IsWhitespace(s[k]))
    && (forall k :: j <= k < |s| ==> IsWhitespace(s[k]))
  }

  /** Trim keeps a contiguous stretch of the input and drops only whitespace. */
  lemma TrimIsInfix(s: string)
    ensures exists i, j :: 0 <= i <= j <= |s| && Trim(s) == s[i..j] && WhitespaceOutside(s, i, j)
  {
    var i := FirstNonBlank(s, 0);
    var j := EndNonBlank(s, i, |s|);
    assert Trim(s) == s[i..j] && WhitespaceOutside(s, i, j);
  }

  /** Trim leaves no whitespace at either end. */
  lemma TrimIsTrimmed(s: string)
    ensures IsTrimmed(Trim(s))
  {
    var i := FirstNonBlank(s, 0);
    var j := EndNonBlank(s, i, |s|);
    var r := s[i..j];
    assert Trim(s) == r;
    if i < j {
      assert r[0] == s[i] && r[|r| - 1] == s[j - 1];
    }
  }

  /** Trimming a trimmed string changes nothing. */
  lemma TrimOfTrimmed(s: string)
    requires IsTrimmed(s)
    ensures Trim(s) == s
  {
    if s != [] {
      assert FirstNonBlank(s, 0) == 0;
      assert EndNonBlank(s, 0, |s|) == |s|;
    }
  }

  /** A string trims to nothing exactly when all its characters are whitespace. */
  lemma TrimEmptyIffAllWhitespace(s: string)
    ensures Trim(s) == [] <==> forall k :: 0 <= k < |s| ==> IsWhitespace(s[k])
  {
    var i := FirstNonBlank(s, 0);
    if i < |s| {
      assert EndNonBlank(s, i, |s|) > i;
    }
  }

  /** Upper-casing twice is upper-casing once, and keeps a string trimmed. */
  lemma ToUpperIdempotent(s: string)
    ensures ToUpper(ToUpper(s)) == ToUpper(s)
    ensures IsTrimmed(s) ==> IsTrimmed(ToUpper(s))
  {
  }

  /** Normalising a normalised key changes nothing. */
  lemma NormalizeIdempotent(s: string)
    ensures Normalize(Normalize(s)) == Normalize(s)
  {
    TrimIsTrimmed(s);
    ToUpperIdempotent(Trim(s));
    TrimOfTrimmed(ToUpper(Trim(s)));
    ToUpperIdempotent(ToUpper(Trim(s)));
  }

  lemma ExampleNormalize()
    ensures Normalize(" r1\n") == "R1"
  {
    ExampleTrim();
    ExampleUpper();
  }

  lemma ExampleUpper()
    ensures ToUpper("r1") == "R1"
  {
    var up := ToUpper("r1");
    assert |up| == 2 && up[0] == UpperChar('r') && up[1] == UpperChar('1');
  }

  lemma ExampleTrim()
    ensures Trim(" r1\n") == "r1"
  {
    assert FirstNonBlank(" r1\n", 0) == 1;
    assert EndNonBlank(" r1\n", 1, 4) == 3;
    assert " r1\n"[1..3] == "r1";
  }

  lemma ExampleBlank()
    ensures Trim(" \t") == ""
  {
    assert FirstNonBlank(" \t", 0) == 2;
  }
}
