/** The three string operations of java.lang.String that the roster relies on:
    trim(), equalsIgnoreCase() and compareToIgnoreCase().
    Case folding is the ASCII one: only 'A'..'Z' have a lower-case partner here. */
module Text {

  /** String.trim() removes every leading and trailing character whose code is
      at most U+0020 (space and all control characters). */
  predicate IsTrimmable(c: char) {
    c <= ' '
  }

  /** A string that trim() leaves as it is. */
  predicate IsTrimmed(s: string) {
    s == [] || (!IsTrimmable(s[0]) && !IsTrimmable(s[|s| - 1]))
  }

  /** The first position at or after `i` whose character is not trimmable,
      or `|s|` when there is none. */
  function TrimStart(s: string, i: nat): (r: nat)
    requires i <= |s|
    ensures i <= r <= |s|
    ensures forall k :: i <= k < r ==> IsTrimmable(s[k])
    ensures r < |s| ==> !IsTrimmable(s[r])
    decreases |s| - i
  {
    if i < |s| && IsTrimmable(s[i]) then TrimStart(s, i + 1) else i
  }

  /** The position just after the last character before `j` that is not
      trimmable, and not below `lo`. */
  function TrimEnd(s: string, lo: nat, j: nat): (r: nat)
    requires lo <= j <= |s|
    ensures lo <= r <= j
    ensures forall k :: r <= k < j ==> IsTrimmable(s[k])
    ensures r > lo ==> !IsTrimmable(s[r - 1])
  {
    if j > lo && IsTrimmable(s[j - 1]) then TrimEnd(s, lo, j - 1) else j
  }

  /** String.trim(): the slice between the first and the last characters that
      are not trimmable. The result is trimmed, only trimmable characters lie
      outside it, and it is empty exactly when every character is trimmable. */
  function Trim(s: string): (r: string)
    ensures IsTrimmed(r)
    ensures var i := TrimStart(s, 0);
      && i + |r| <= |s| && r == s[i..i + |r|]
      && (forall k :: 0 <= k < i ==> IsTrimmable(s[k]))
      && (forall k :: i + |r| <= k < |s| ==> IsTrimmable(s[k]))
    ensures r == [] <==> forall k :: 0 <= k < |s| ==> IsTrimmable(s[k])
  {
    var i := TrimStart(s, 0);
    var j := TrimEnd(s, i, |s|);
    assert j > i ==> !IsTrimmable(s[i]);
    s[i..j]
  }

  /** The test `s.trim().isEmpty()` that the constructors and setters apply:
      it holds exactly when every character of `s` is trimmable. */
  predicate IsBlank(s: string)
    ensures IsBlank(s) <==> forall k :: 0 <= k < |s| ==> IsTrimmable(s[k])
  {
    Trim(s) == []
  }

  /** Trimming a string that has no trimmable ends changes nothing. */
  lemma {:induction false} TrimOfTrimmed(s: string)
    requires IsTrimmed(s)
    ensures Trim(s) == s
  {
    if s != [] {
      assert TrimStart(s, 0) == 0;
      assert TrimEnd(s, 0, |s|) == |s|;
    }
  }

  /** trim() is idempotent. */
  lemma TrimIdempotent(s: string)
    ensures Trim(Trim(s)) == Trim(s)
  {
    TrimOfTrimmed(Trim(s));
  }

  /** Character.toLowerCase restricted to ASCII letters. */
  function ToLower(c: char): (r: char)
    ensures 'A' <= c <= 'Z' ==> r as int == c as int + 32
    ensures !('A' <= c <= 'Z') ==> r == c
    ensures !('A' <= r <= 'Z')
  {
    if 'A' <= c <= 'Z' then (c as int + 32) as char else c
  }

  /** The string with every character folded to lower case. */
  function Lower(s: string): (r: string)
    ensures |r| == |s|
    ensures forall k :: 0 <= k < |s| ==> r[k] == ToLower(s[k])
  {
    if s == [] then [] else [ToLower(s[0])] + Lower(s[1..])
  }

  /** String.equalsIgnoreCase: same length and the same characters once
      folded. Every string equals itself ignoring case. */
  predicate EqualsIgnoreCase(a: string, b: string)
    ensures a == b ==> EqualsIgnoreCase(a, b)
  {
    |a| == |b| && forall k :: 0 <= k < |a| ==> ToLower(a[k]) == ToLower(b[k])
  }

  /** Ignoring case is comparing the folded strings. */
  lemma EqualsIgnoreCaseIffLower(a: string, b: string)
    ensures EqualsIgnoreCase(a, b) <==> Lower(a) == Lower(b)
  {
    if Lower(a) == Lower(b) {
      assert forall k :: 0 <= k < |a| ==> Lower(a)[k] == Lower(b)[k];
    }
  }

  /** String.compareToIgnoreCase: the difference of the first folded
      characters that differ, or else the difference of the lengths.
      It answers 0 exactly for the pairs equalsIgnoreCase accepts. */
  function CompareIgnoreCase(a: string, b: string): (r: int)
    ensures r == 0 <==> EqualsIgnoreCase(a, b)
  {
    if a == [] || b == [] then |a| - |b|
    else if ToLower(a[0]) != ToLower(b[0]) then ToLower(a[0]) as int - ToLower(b[0]) as int
    else
      assert EqualsIgnoreCase(a, b) <==> EqualsIgnoreCase(a[1..], b[1..]) by {
        forall k | 0 <= k < |a| - 1 ensures a[1..][k] == a[k + 1] {}
        forall k | 0 <= k < |b| - 1 ensures b[1..][k] == b[k + 1] {}
      }
      CompareIgnoreCase(a[1..], b[1..])
  }

  /** compareToIgnoreCase is antisymmetric: swapping the arguments negates the result. */
  lemma {:induction false} CompareAntisymmetric(a: string, b: string)
    ensures CompareIgnoreCase(a, b) == -CompareIgnoreCase(b, a)
  {
    if a != [] && b != [] && ToLower(a[0]) == ToLower(b[0]) {
      CompareAntisymmetric(a[1..], b[1..]);
    }
  }

  /** "Sorts no later than" is transitive. */
  lemma {:induction false} CompareTransitive(a: string, b: string, c: string)
    requires CompareIgnoreCase(a, b) <= 0 && CompareIgnoreCase(b, c) <= 0
    ensures CompareIgnoreCase(a, c) <= 0
  {
    if a != [] && b != [] && c != [] {
      if ToLower(a[0]) == ToLower(b[0]) && ToLower(b[0]) == ToLower(c[0]) {
        CompareTransitive(a[1..], b[1..], c[1..]);
      }
    }
  }

  /** compareToIgnoreCase depends on its arguments only up to case:
      replacing a name by one equal to it ignoring case changes nothing. */
  lemma {:induction false} CompareRespectsCase(a: string, a': string, b: string)
    requires EqualsIgnoreCase(a, a')
    ensures CompareIgnoreCase(a, b) == CompareIgnoreCase(a', b)
    ensures CompareIgnoreCase(b, a) == CompareIgnoreCase(b, a')
  {
    if a != [] && b != [] {
      assert ToLower(a[0]) == ToLower(a'[0]);
      assert EqualsIgnoreCase(a[1..], a'[1..]) by {
        forall k | 0 <= k < |a| - 1 ensures ToLower(a[1..][k]) == ToLower(a'[1..][k]) {
          assert a[1..][k] == a[k + 1] && a'[1..][k] == a'[k + 1];
        }
      }
      CompareRespectsCase(a[1..], a'[1..], b[1..]);
    }
  }
}
