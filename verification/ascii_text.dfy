/** Character classes and the handful of Python `str` operations the core
    relies on, restricted to ASCII: a character outside ASCII is neither a
    letter, a digit nor whitespace here. */
module AsciiText {

  predicate IsUpper(c: char) { 'A' <= c <= 'Z' }

  predicate IsLower(c: char) { 'a' <= c <= 'z' }

  predicate IsDigit(c: char) { '0' <= c <= '9' }

  predicate IsLetter(c: char) { IsUpper(c) || IsLower(c) }

  /** Python's `str.isspace` on ASCII: tab, line feed, vertical tab, form
      feed, carriage return (9-13), the separators 28-31 and the space. */
  predicate IsSpace(c: char) { 9 <= c as int <= 13 || 28 <= c as int <= 32 }

  /** Python's `str.isalpha`: non-empty and every character a letter. */
  predicate IsAlpha(s: string) { |s| > 0 && forall i | 0 <= i < |s| :: IsLetter(s[i]) }

  /** Python's `str.isdigit`: non-empty and every character a digit. */
  predicate IsDigits(s: string) { |s| > 0 && forall i | 0 <= i < |s| :: IsDigit(s[i]) }

  /** Drops leading whitespace; what is left does not start with it. */
  function StripLeft(s: string): (r: string)
    ensures |r| <= |s|
    ensures r == [] || !IsSpace(r[0])
  {
    if |s| > 0 && IsSpace(s[0]) then StripLeft(s[1..]) else s
  }

  /** Drops trailing whitespace; what is left does not end with it. */
  function StripRight(s: string): (r: string)
    ensures |r| <= |s|
    ensures r == [] || !IsSpace(r[|r| - 1])
  {
    if |s| > 0 && IsSpace(s[|s| - 1]) then StripRight(s[..|s| - 1]) else s
  }

  /** `StripLeft` keeps a suffix and drops only whitespace. */
  lemma {:induction false} StripLeftShape(s: string)
    ensures StripLeft(s) == s[|s| - |StripLeft(s)|..]
    ensures forall k | 0 <= k < |s| - |StripLeft(s)| :: IsSpace(s[k])
  {
    if |s| > 0 && IsSpace(s[0]) {
      StripLeftShape(s[1..]);
      assert forall k | 1 <= k < |s| - |StripLeft(s)| :: s[k] == s[1..][k - 1];
    }
  }

  /** `StripRight` keeps a prefix and drops only whitespace. */
  lemma {:induction false} StripRightShape(s: string)
    ensures StripRight(s) == s[..|StripRight(s)|]
    ensures forall k | |StripRight(s)| <= k < |s| :: IsSpace(s[k])
  {
    if |s| > 0 && IsSpace(s[|s| - 1]) {
      StripRightShape(s[..|s| - 1]);
      assert forall k | |StripRight(s)| <= k < |s| - 1 :: s[k] == s[..|s| - 1][k];
    }
  }

  /** Python's `str.strip()`: whitespace removed from both ends. */
  function Strip(s: string): (r: string)
    ensures |r| <= |s|
    ensures r == [] || (!IsSpace(r[0]) && !IsSpace(r[|r| - 1]))
  {
    StripRightShape(StripLeft(s));
    StripRight(StripLeft(s))
  }

  /** Text that neither starts nor ends with whitespace is its own strip. */
  lemma StripOfTrimmed(s: string)
    requires s == [] || (!IsSpace(s[0]) && !IsSpace(s[|s| - 1]))
    ensures Strip(s) == s
  {
    assert StripLeft(s) == s;
  }

  /** What `Strip` keeps is an infix of `s`, and all it drops on either
      side is whitespace. */
  lemma StripShape(s: string) returns (i: nat)
    ensures i + |Strip(s)| <= |s| && Strip(s) == s[i..i + |Strip(s)|]
    ensures forall k | 0 <= k < i :: IsSpace(s[k])
    ensures forall k | i + |Strip(s)| <= k < |s| :: IsSpace(s[k])
  {
    var t := StripLeft(s);
    var r := StripRight(t);
    StripLeftShape(s);
    StripRightShape(t);
    i := |s| - |t|;
    assert forall k | i + |r| <= k < |s| :: s[k] == t[k - i];
  }

  /** Stripping keeps every character from the first non-space one on. */
  lemma {:induction false} StripLeftKeeps(s: string, k: nat)
    requires k < |s| && !IsSpace(s[k])
    ensures |StripLeft(s)| >= |s| - k
  {
    if k > 0 && IsSpace(s[0]) {
      StripLeftKeeps(s[1..], k - 1);
    }
  }

  /** Stripping keeps every character up to the last non-space one. */
  lemma {:induction false} StripRightKeeps(s: string, k: nat)
    requires k < |s| && !IsSpace(s[k])
    ensures |StripRight(s)| >= k + 1
  {
    if k < |s| - 1 && IsSpace(s[|s| - 1]) {
      StripRightKeeps(s[..|s| - 1], k);
    }
  }

  /** Everything between two non-space characters survives `Strip`. */
  lemma StripKeeps(s: string, i: nat, j: nat)
    requires i <= j < |s| && !IsSpace(s[i]) && !IsSpace(s[j])
    ensures |Strip(s)| >= j - i + 1
  {
    var t := StripLeft(s);
    StripLeftKeeps(s, i);
    StripLeftShape(s);
    var o := |s| - |t|;
    assert t[j - o] == s[j];
    StripRightKeeps(t, j - o);
  }

  /** Python's `s.replace(" ", "")`: the characters of `s` other than the
      space, in their original order. */
  function RemoveSpaces(s: string): (r: string)
    ensures ' ' !in r
    ensures forall c :: c in r <==> c in s && c != ' '
  {
    if s == [] then []
    else (if s[0] == ' ' then [] else [s[0]]) + RemoveSpaces(s[1..])
  }

  /** Every character other than the space survives as often as it occurs. */
  lemma {:induction false} RemoveSpacesCounts(s: string)
    ensures multiset(RemoveSpaces(s)) == multiset(s)[' ' := 0]
  {
    if s != [] {
      assert s == [s[0]] + s[1..];
      RemoveSpacesCounts(s[1..]);
    }
  }

  /** Text without spaces is left as it is. */
  lemma {:induction false} RemoveSpacesOfSpaceFree(s: string)
    requires ' ' !in s
    ensures RemoveSpaces(s) == s
  {
    if s != [] {
      assert ' ' !in s[1..] by {
        forall i | 0 <= i < |s[1..]| ensures s[1..][i] != ' ' {
          assert s[1..][i] == s[i + 1];
        }
      }
      RemoveSpacesOfSpaceFree(s[1..]);
    }
  }

  /** Removal works piece by piece, so the remaining characters keep their
      order: what is left of `a + b` is what is left of `a` followed by what
      is left of `b`. */
  lemma {:induction false} RemoveSpacesOfConcat(a: string, b: string)
    ensures RemoveSpaces(a + b) == RemoveSpaces(a) + RemoveSpaces(b)
  {
    if a != [] {
      assert (a + b)[0] == a[0];
      assert (a + b)[1..] == a[1..] + b;
      RemoveSpacesOfConcat(a[1..], b);
    } else {
      assert a + b == b;
    }
  }
}
