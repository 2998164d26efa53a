/** Values and string operations shared by the whole model: an Option type,
    integers extended with the two infinities that the program's priorities
    start from, and the few Python string operations the program relies on
    (str.split, str.replace, str.upper, the `in` substring test, str() and
    int() on integers), restricted to ASCII. */
module Util {

  datatype Option<T> = None | Some(value: T)

  /** An integer or one of Python's float('-inf') / float('inf'). */
  datatype ExtInt = NegInf | Fin(n: int) | PosInf {

    /** Python's `<` on these values. */
    predicate Lt(other: ExtInt) {
      match (this, other)
      case (NegInf, NegInf) => false
      case (NegInf, _) => true
      case (Fin(a), Fin(b)) => a < b
      case (Fin(_), PosInf) => true
      case _ => false
    }

    /** Python's `<=` on these values. */
    predicate Le(other: ExtInt) {
      !other.Lt(this)
    }
  }

  /** The larger of two extended integers, keeping the first on a tie
      (Python's `if b > a: a = b`). */
  function MaxExt(a: ExtInt, b: ExtInt): (r: ExtInt)
    ensures a.Le(r) && b.Le(r)
    ensures r == a || r == b
  {
    if a.Lt(b) then b else a
  }

  /** `<` on extended integers is a strict total order. */
  lemma LtStrictTotalOrder(a: ExtInt, b: ExtInt, c: ExtInt)
    ensures !a.Lt(a)
    ensures a.Lt(b) && b.Lt(c) ==> a.Lt(c)
    ensures a.Lt(b) || a == b || b.Lt(a)
  {
  }

  // ---------------------------------------------------------------------
  // Characters

  /** The ASCII characters Python's str.split() treats as whitespace. */
  predicate IsSpace(c: char) {
    c == ' ' || (9 <= c as int <= 13) || (28 <= c as int <= 31)
  }

  function UpperChar(c: char): char {
    if 'a' <= c <= 'z' then (c as int - 32) as char else c
  }

  predicate IsDigit(c: char) {
    '0' <= c <= '9'
  }

  function DigitChar(d: nat): (c: char)
    requires d < 10
    ensures IsDigit(c) && DigitValue(c) == d
  {
    ('0' as int + d) as char
  }

  function DigitValue(c: char): (d: nat)
    requires IsDigit(c)
    ensures d < 10
  {
    c as int - '0' as int
  }

  // ---------------------------------------------------------------------
  // Substrings: Python's `sub in s`

  predicate HasSubstring(s: string, sub: string)
    decreases |s|
  {
    if |sub| > |s| then false
    else if s[..|sub|] == sub then true
    else HasSubstring(s[1..], sub)
  }

  /** `sub` occurs in `s` starting at position `i`. */
  predicate OccursAt(s: string, sub: string, i: int) {
    0 <= i <= |s| - |sub| && s[i..i + |sub|] == sub
  }

  /** An occurrence past the first position is one in the tail. */
  lemma OccursShift(s: string, sub: string, i: int)
    requires |s| > 0 && i > 0
    ensures OccursAt(s, sub, i) <==> OccursAt(s[1..], sub, i - 1)
  {
    if 0 <= i <= |s| - |sub| {
      var a, b := s[i..i + |sub|], s[1..][i - 1..i - 1 + |sub|];
      assert |a| == |b|;
      forall k | 0 <= k < |a| ensures a[k] == b[k] {
        assert a[k] == s[i + k] && b[k] == s[1..][i - 1 + k];
      }
      assert a == b;
    }
  }

  /** The recursive test agrees with "occurs at some position". */
  lemma {:induction false} HasSubstringAt(s: string, sub: string)
    ensures HasSubstring(s, sub) <==> exists i :: OccursAt(s, sub, i)
    decreases |s|
  {
    if |sub| > |s| {
    } else if s[..|sub|] == sub {
      assert OccursAt(s, sub, 0);
    } else {
      HasSubstringAt(s[1..], sub);
      if HasSubstring(s[1..], sub) {
        var i :| OccursAt(s[1..], sub, i);
        OccursShift(s, sub, i + 1);
      } else {
        forall i | OccursAt(s, sub, i)
          ensures false
        {
          if i > 0 {
            OccursShift(s, sub, i);
          }
        }
      }
    }
  }

  /** A string built around `sub` contains it. */
  lemma HasSubstringOfPiece(a: string, sub: string, b: string)
    ensures HasSubstring(a + sub + b, sub)
  {
    HasSubstringAt(a + sub + b, sub);
    assert (a + sub + b)[|a|..|a| + |sub|] == sub;
    assert OccursAt(a + sub + b, sub, |a|);
  }

  // ---------------------------------------------------------------------
  // str.upper()

  function Upper(s: string): (r: string)
    ensures |r| == |s|
    ensures forall i :: 0 <= i < |s| ==> r[i] == UpperChar(s[i])
  {
    if s == [] then [] else [UpperChar(s[0])] + Upper(s[1..])
  }

  // ---------------------------------------------------------------------
  // str.split(sep) for a one-character separator

  /** The pieces joined back together with the separator. */
  function JoinWith(parts: seq<string>, sep: char): string
  {
    if |parts| == 0 then []
    else if |parts| == 1 then parts[0]
    else parts[0] + [sep] + JoinWith(parts[1..], sep)
  }

  /** Python's `s.split(sep)`: never empty, keeps empty pieces. */
  function SplitOn(s: string, sep: char): (parts: seq<string>)
    ensures |parts| >= 1
    ensures forall i :: 0 <= i < |parts| ==> sep !in parts[i]
    ensures JoinWith(parts, sep) == s
  {
    if s == [] then [[]]
    else
      var rest := SplitOn(s[1..], sep);
      if s[0] == sep then
        [[]] + rest
      else
        assert JoinWith([[s[0]] + rest[0]] + rest[1..], sep) == [s[0]] + JoinWith(rest, sep);
        [[s[0]] + rest[0]] + rest[1..]
  }

  // ---------------------------------------------------------------------
  // str.split() with no argument: maximal runs of non-whitespace

  function WordLen(s: string): (n: nat)
    ensures n <= |s|
    ensures forall i :: 0 <= i < n ==> !IsSpace(s[i])
    ensures n < |s| ==> IsSpace(s[n])
  {
    if s == [] || IsSpace(s[0]) then 0 else 1 + WordLen(s[1..])
  }

  function RemoveSpaces(s: string): string
  {
    if s == [] then [] else (if IsSpace(s[0]) then [] else [s[0]]) + RemoveSpaces(s[1..])
  }

  function Concat(ws: seq<string>): string
  {
    if ws == [] then [] else ws[0] + Concat(ws[1..])
  }

  lemma RemoveSpacesAppend(a: string, b: string)
    ensures RemoveSpaces(a + b) == RemoveSpaces(a) + RemoveSpaces(b)
  {
    if a != [] {
      assert (a + b)[1..] == a[1..] + b;
      RemoveSpacesAppend(a[1..], b);
    } else {
      assert a + b == b;
    }
  }

  lemma RemoveSpacesOfWord(w: string)
    requires forall i :: 0 <= i < |w| ==> !IsSpace(w[i])
    ensures RemoveSpaces(w) == w
  {
    if w != [] {
      RemoveSpacesOfWord(w[1..]);
    }
  }

  /** Python's `s.split()`. */
  function Words(s: string): (ws: seq<string>)
    ensures forall i :: 0 <= i < |ws| ==> |ws[i]| > 0 && forall j :: 0 <= j < |ws[i]| ==> !IsSpace(ws[i][j])
    ensures Concat(ws) == RemoveSpaces(s)
    decreases |s|
  {
    if s == [] then []
    else if IsSpace(s[0]) then
      assert RemoveSpaces(s) == RemoveSpaces(s[1..]);
      Words(s[1..])
    else
      var n := WordLen(s);
      assert s == s[..n] + s[n..];
      RemoveSpacesAppend(s[..n], s[n..]);
      RemoveSpacesOfWord(s[..n]);
      [s[..n]] + Words(s[n..])
  }

  // ---------------------------------------------------------------------
  // str.replace(pat, rep): left to right, non-overlapping

  function Replace(s: string, pat: string, rep: string): string
    requires |pat| > 0
    decreases |s|
  {
    if |s| < |pat| then s
    else if s[..|pat|] == pat then rep + Replace(s[|pat|..], pat, rep)
    else [s[0]] + Replace(s[1..], pat, rep)
  }

  /** Every character of `s` other than `c`, in order. */
  function Without(s: string, c: char): string
  {
    if s == [] then [] else (if s[0] == c then [] else [s[0]]) + Without(s[1..], c)
  }

  /** Replacing a one-character pattern by nothing deletes every occurrence. */
  lemma {:induction false} ReplaceCharByNothing(s: string, c: char)
    ensures Replace(s, [c], []) == Without(s, c)
    ensures c !in Without(s, c)
  {
    if s != [] {
      ReplaceCharByNothing(s[1..], c);
    }
  }

  /** A prefix holding no copy of the pattern's first character is passed
      through untouched. */
  lemma {:induction false} ReplaceSkipPrefix(s: string, t: string, pat: string, rep: string)
    requires |pat| > 0 && pat[0] !in s
    ensures Replace(s + t, pat, rep) == s + Replace(t, pat, rep)
    decreases |s|
  {
    if s != [] {
      var u := s + t;
      assert u[0] == s[0] != pat[0];
      if |u| >= |pat| {
        assert u[..|pat|] != pat;
        assert u[1..] == s[1..] + t;
        ReplaceSkipPrefix(s[1..], t, pat, rep);
      } else {
        ReplaceShort(t, pat, rep);
        ReplaceShort(u, pat, rep);
      }
    } else {
      assert s + t == t;
    }
  }

  lemma ReplaceShort(s: string, pat: string, rep: string)
    requires |pat| > 0 && |s| < |pat|
    ensures Replace(s, pat, rep) == s
  {
  }

  lemma {:induction false} WithoutAppend(a: string, b: string, c: char)
    ensures Without(a + b, c) == Without(a, c) + Without(b, c)
  {
    if a == [] {
      assert a + b == b;
    } else {
      assert (a + b)[1..] == a[1..] + b;
      WithoutAppend(a[1..], b, c);
    }
  }

  lemma {:induction false} WithoutAbsent(s: string, c: char)
    requires c !in s
    ensures Without(s, c) == s
  {
    if s != [] {
      WithoutAbsent(s[1..], c);
    }
  }

  /** A string without the first character of `sub` does not contain `sub`. */
  lemma NoSubstringWithoutFirst(s: string, sub: string)
    requires |sub| > 0 && sub[0] !in s
    ensures !HasSubstring(s, sub)
  {
    HasSubstringAt(s, sub);
    forall i ensures !OccursAt(s, sub, i) {
      if 0 <= i <= |s| - |sub| {
        assert s[i..i + |sub|][0] == s[i] && s[i] in s;
      }
    }
  }

  // ---------------------------------------------------------------------
  // str() and int() on integers

  function NatToString(n: nat): (s: string)
    ensures |s| > 0 && forall i :: 0 <= i < |s| ==> IsDigit(s[i])
  {
    if n < 10 then [DigitChar(n)] else NatToString(n / 10) + [DigitChar(n % 10)]
  }

  /** Python's str() of an int. */
  function IntToString(i: int): string
  {
    if i < 0 then "-" + NatToString(-i) else NatToString(i)
  }

  predicate AllDigits(s: string) {
    forall i :: 0 <= i < |s| ==> IsDigit(s[i])
  }

  /** The value of a string of decimal digits, most significant first. */
  function DigitsValue(s: string): nat
    requires AllDigits(s)
  {
    if s == [] then 0 else DigitsValue(s[..|s| - 1]) * 10 + DigitValue(s[|s| - 1])
  }

  function StripLeft(s: string): (r: string)
    ensures |r| <= |s|
  {
    if s != [] && IsSpace(s[0]) then StripLeft(s[1..]) else s
  }

  function StripRight(s: string): (r: string)
    ensures |r| <= |s|
  {
    if s != [] && IsSpace(s[|s| - 1]) then StripRight(s[..|s| - 1]) else s
  }

  /** Python's int(s) on a string: surrounding whitespace, an optional sign,
      then at least one decimal digit; None where Python raises ValueError. */
  function ParseInt(s: string): Option<int>
  {
    var t := StripRight(StripLeft(s));
    if |t| > 0 && (t[0] == '-' || t[0] == '+') then
      if |t| > 1 && AllDigits(t[1..]) then
        Some(if t[0] == '-' then -(DigitsValue(t[1..]) as int) else DigitsValue(t[1..]))
      else None
    else if |t| > 0 && AllDigits(t) then Some(DigitsValue(t))
    else None
  }

  /** Appending two digits multiplies the value by 100 and adds them. */
  lemma DigitsValueAppendTwo(s: string, d1: char, d2: char)
    requires AllDigits(s) && IsDigit(d1) && IsDigit(d2)
    ensures AllDigits(s + [d1, d2])
    ensures DigitsValue(s + [d1, d2]) == DigitsValue(s) * 100 + DigitValue(d1) * 10 + DigitValue(d2)
  {
    var u := s + [d1, d2];
    assert u[..|u| - 1] == s + [d1];
    assert (s + [d1])[..|s|] == s;
  }

  lemma {:induction false} DigitsValueOfNat(n: nat)
    ensures AllDigits(NatToString(n)) && DigitsValue(NatToString(n)) == n
  {
    var s := NatToString(n);
    if n >= 10 {
      DigitsValueOfNat(n / 10);
      assert s[..|s| - 1] == NatToString(n / 10);
    }
  }

  lemma NoSpaceInDigits(s: string)
    requires |s| > 0 && AllDigits(s)
    ensures StripRight(StripLeft(s)) == s
  {
  }

  /** int(str(i)) == i. */
  lemma {:induction false} ParseIntOfIntToString(i: int)
    ensures ParseInt(IntToString(i)) == Some(i)
  {
    if i < 0 {
      var s := IntToString(i);
      DigitsValueOfNat(-i);
      assert s[1..] == NatToString(-i);
      assert StripLeft(s) == s;
      assert StripRight(s) == s;
    } else {
      DigitsValueOfNat(i);
      NoSpaceInDigits(NatToString(i));
    }
  }
}
