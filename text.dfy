/** The JavaScript string primitives the services chain together:
    character classes of their regular expressions, `trim`, `/\s+/g`
    replacement, `toLowerCase` on ASCII, `includes`, and the decimal
    rendering of a counter in a template literal. Characters are Unicode
    scalar values; no normalisation is performed here. */
module Text {
  import opened Seqs

  /** JavaScript `\s`, which is also exactly the set `String.prototype.trim`
      removes (WhiteSpace and LineTerminator code points). */
  predicate IsSpace(c: char) {
    var n := c as int;
    (0x09 <= n <= 0x0D) || n == 0x20 || n == 0xA0 || n == 0x1680
    || (0x2000 <= n <= 0x200A) || n == 0x2028 || n == 0x2029
    || n == 0x202F || n == 0x205F || n == 0x3000 || n == 0xFEFF
  }

  /** The block U+0300-U+036F stripped after NFD decomposition. */
  predicate IsCombiningMark(c: char) {
    0x300 <= c as int <= 0x36F
  }

  predicate IsAscii(c: char) { c as int <= 0x7F }
  predicate IsUpper(c: char) { 'A' <= c <= 'Z' }
  predicate IsLower(c: char) { 'a' <= c <= 'z' }
  predicate IsDigit(c: char) { '0' <= c <= '9' }

  /** JavaScript `\w`: ASCII letters, digits and underscore. */
  predicate IsWordChar(c: char) {
    IsUpper(c) || IsLower(c) || IsDigit(c) || c == '_'
  }

  function Lower(c: char): char {
    if IsUpper(c) then (c as int + 32) as char else c
  }

  /** `toLowerCase()` restricted to ASCII letters. */
  function LowerAscii(s: string): (r: string)
    ensures |r| == |s|
    ensures forall i :: 0 <= i < |s| ==> r[i] == Lower(s[i])
  {
    seq(|s|, i requires 0 <= i < |s| => Lower(s[i]))
  }

  lemma LowerAsciiNoUpper(s: string)
    requires forall c :: c in s ==> !IsUpper(c)
    ensures LowerAscii(s) == s
  {
  }

  /** Drops the leading run of whitespace (`trimStart`). */
  function TrimStart(s: string): (r: string)
    ensures |r| <= |s| && r == s[|s| - |r|..]
    ensures r == [] || !IsSpace(r[0])
    ensures forall i :: 0 <= i < |s| - |r| ==> IsSpace(s[i])
    decreases |s|
  {
    if s != [] && IsSpace(s[0]) then TrimStart(s[1..]) else s
  }

  /** Drops the trailing run of whitespace (`trimEnd`). */
  function TrimEnd(s: string): (r: string)
    ensures |r| <= |s| && r == s[..|r|]
    ensures r == [] || !IsSpace(r[|r| - 1])
    ensures forall i :: |r| <= i < |s| ==> IsSpace(s[i])
    decreases |s|
  {
    if s != [] && IsSpace(s[|s| - 1]) then TrimEnd(s[..|s| - 1]) else s
  }

  /** `r` is `s[i..j]`, and everything of `s` outside that slice is
      whitespace. */
  predicate TrimmedSlice(s: string, r: string, i: int, j: int) {
    0 <= i <= j <= |s| && r == s[i..j] &&
    (forall k :: 0 <= k < i ==> IsSpace(s[k])) && (forall k :: j <= k < |s| ==> IsSpace(s[k]))
  }

  /** `String.prototype.trim`: a slice of `s` with only whitespace cut off
      on either side, and no whitespace left at either end. */
  function Trim(s: string): (r: string)
    ensures r == [] || (!IsSpace(r[0]) && !IsSpace(r[|r| - 1]))
    ensures forall c :: c in r ==> c in s
    ensures exists i, j :: TrimmedSlice(s, r, i, j)
  {
    var t := TrimStart(s);
    var r := TrimEnd(t);
    TrimSlice(s, t, r);
    assert TrimmedSlice(s, r, |s| - |t|, |s| - |t| + |r|);
    r
  }

  /** Cutting whitespace off the front of `s` (giving `t`) and then off
      the back of `t` (giving `r`) leaves a slice of `s`. */
  lemma TrimSlice(s: string, t: string, r: string)
    requires |t| <= |s| && t == s[|s| - |t|..] && forall k :: 0 <= k < |s| - |t| ==> IsSpace(s[k])
    requires |r| <= |t| && r == t[..|r|] && forall k :: |r| <= k < |t| ==> IsSpace(t[k])
    ensures TrimmedSlice(s, r, |s| - |t|, |s| - |t| + |r|)
    ensures forall c :: c in r ==> c in s
  {
    var i := |s| - |t|;
    forall k | i + |r| <= k < |s|
      ensures IsSpace(s[k])
    {
      assert s[k] == t[k - i];
    }
    forall c | c in r
      ensures c in s
    {
      var m :| 0 <= m < |r| && r[m] == c;
      assert s[i + m] == c;
    }
  }

  /** Trimming a string that has no whitespace at either end changes nothing. */
  lemma TrimUnchanged(s: string)
    requires s == [] || (!IsSpace(s[0]) && !IsSpace(s[|s| - 1]))
    ensures Trim(s) == s
  {
  }

  /** `replace(/\s+/g, '-')`: every maximal run of whitespace becomes one
      hyphen; no whitespace is left and every other character comes from `s`. */
  function CollapseSpaces(s: string): (r: string)
    ensures forall c :: c in r ==> !IsSpace(c) && (c == '-' || c in s)
    decreases |s|
  {
    if s == [] then []
    else if IsSpace(s[0]) then
      var rest := TrimStart(s);
      assert forall c :: c in rest ==> c in s;
      "-" + CollapseSpaces(rest)
    else [s[0]] + CollapseSpaces(s[1..])
  }

  /** On a string without whitespace the replacement finds nothing to replace. */
  lemma {:induction false} CollapseSpacesUnchanged(s: string)
    requires forall c :: c in s ==> !IsSpace(c)
    ensures CollapseSpaces(s) == s
    decreases |s|
  {
    if s != [] {
      assert s[0] in s;
      assert forall c :: c in s[1..] ==> c in s;
      CollapseSpacesUnchanged(s[1..]);
    }
  }

  /** JavaScript `s.includes(q)`. */
  predicate Contains(s: string, q: string)
    decreases |s|
  {
    q <= s || (s != [] && Contains(s[1..], q))
  }

  /** `q` occurs in `s` starting at offset `i`. */
  predicate OccursAt(s: string, q: string, i: int) {
    0 <= i <= |s| - |q| && s[i..i + |q|] == q
  }

  /** `includes` holds exactly when `q` occurs at some offset of `s`. */
  lemma {:induction false} ContainsOccurrence(s: string, q: string)
    ensures Contains(s, q) <==> exists i :: OccursAt(s, q, i)
    decreases |s|
  {
    if q <= s {
      assert OccursAt(s, q, 0);
    } else if s == [] {
      assert forall i :: !OccursAt(s, q, i);
    } else {
      ContainsOccurrence(s[1..], q);
      if Contains(s[1..], q) {
        var i :| OccursAt(s[1..], q, i);
        assert s[i + 1..i + 1 + |q|] == s[1..][i..i + |q|];
        assert OccursAt(s, q, i + 1);
      }
      if i :| OccursAt(s, q, i) {
        assert i > 0;
        assert s[1..][i - 1..i - 1 + |q|] == s[i..i + |q|];
        assert OccursAt(s[1..], q, i - 1);
      }
    }
  }

  /** Every string contains the empty string, so an empty search query
      matches everything. */
  lemma ContainsEmpty(s: string)
    ensures Contains(s, "")
  {
  }

  function DigitChar(d: nat): char
    requires d < 10
  {
    "0123456789"[d]
  }

  /** A counter rendered by a template literal: decimal, no leading zeros. */
  function Decimal(n: nat): (r: string)
    ensures |r| >= 1
    ensures forall c :: c in r ==> IsDigit(c)
    decreases n
  {
    if n < 10 then [DigitChar(n)] else Decimal(n / 10) + [DigitChar(n % 10)]
  }

  function Pow10(m: nat): (r: nat)
    ensures r >= 1
  {
    if m == 0 then 1 else 10 * Pow10(m - 1)
  }

  /** A number at least 10^m needs more than m digits. */
  lemma {:induction false} DecimalLength(n: nat, m: nat)
    requires n >= Pow10(m)
    ensures |Decimal(n)| > m
    decreases m
  {
    if m > 0 {
      assert n >= 10;
      assert n / 10 >= Pow10(m - 1);
      DecimalLength(n / 10, m - 1);
    }
  }
}
