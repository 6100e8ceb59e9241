/**
 * The JavaScript string and number built-ins the application relies on:
 * the `\s` character class and `trim`, `toLowerCase`, `includes` and
 * `indexOf`, `Array.prototype.join`, decimal number formatting and
 * `Math.round` of a ratio.  Strings are `seq<char>`, sequences of Unicode
 * scalar values (JavaScript counts UTF-16 code units instead).
 */
module JsText {

  /** The characters matched by `\s`, which are also the ones `trim` removes. */
  predicate IsSpace(c: char) {
    var n := c as int;
    n == 0x09 || n == 0x0A || n == 0x0B || n == 0x0C || n == 0x0D || n == 0x20
    || n == 0xA0 || n == 0x1680 || (0x2000 <= n <= 0x200A)
    || n == 0x2028 || n == 0x2029 || n == 0x202F || n == 0x205F
    || n == 0x3000 || n == 0xFEFF
  }

  /** `s.trim()` is the empty string (so `s.trim()` is falsy). */
  predicate IsBlank(s: string) {
    forall i :: 0 <= i < |s| ==> IsSpace(s[i])
  }

  /** The non-whitespace characters of `s`, in order. */
  function RemoveSpaces(s: string): string {
    if s == [] then []
    else if IsSpace(s[0]) then RemoveSpaces(s[1..])
    else [s[0]] + RemoveSpaces(s[1..])
  }

  lemma {:induction false} RemoveSpacesAppend(a: string, b: string)
    ensures RemoveSpaces(a + b) == RemoveSpaces(a) + RemoveSpaces(b)
  {
    if a == [] {
      assert a + b == b;
    } else {
      assert (a + b)[0] == a[0];
      assert (a + b)[1..] == a[1..] + b;
      RemoveSpacesAppend(a[1..], b);
    }
  }

  lemma {:induction false} RemoveSpacesOfBlank(s: string)
    ensures IsBlank(s) <==> RemoveSpaces(s) == []
  {
    if s != [] {
      RemoveSpacesOfBlank(s[1..]);
      assert IsBlank(s) <==> IsSpace(s[0]) && IsBlank(s[1..]);
    }
  }

  lemma {:induction false} RemoveSpacesShorter(s: string)
    ensures |RemoveSpaces(s)| <= |s|
  {
    if s != [] {
      RemoveSpacesShorter(s[1..]);
    }
  }

  /**
   * `s.trim()`: drops the whitespace at both ends and nothing else, so the
   * result is a slice of `s` between two blank ends, and it keeps every
   * visible character.
   */
  function Trim(s: string): (r: string)
    ensures |r| <= |s|
    ensures exists i, j :: 0 <= i <= j <= |s| && r == s[i..j] && IsBlank(s[..i]) && IsBlank(s[j..])
    ensures RemoveSpaces(r) == RemoveSpaces(s)
    decreases |s|
  {
    if s == [] then
      assert s == s[0..0] && IsBlank(s[..0]) && IsBlank(s[0..]);
      s
    else if IsSpace(s[0]) then
      assert s == [s[0]] + s[1..];
      var t := s[1..];
      assert forall i, j | 0 <= i <= j <= |t| && IsBlank(t[..i]) && IsBlank(t[j..]) ::
        t[i..j] == s[i + 1..j + 1] && IsBlank(s[..i + 1]) && IsBlank(s[j + 1..]) by {
        forall i, j | 0 <= i <= j <= |t| && IsBlank(t[..i]) && IsBlank(t[j..])
          ensures IsBlank(s[..i + 1])
        {
          assert s[..i + 1] == [s[0]] + t[..i];
        }
      }
      Trim(t)
    else if IsSpace(s[|s| - 1]) then
      RemoveSpacesAppend(s[..|s| - 1], [s[|s| - 1]]);
      assert s == s[..|s| - 1] + [s[|s| - 1]];
      var t := s[..|s| - 1];
      assert forall i, j | 0 <= i <= j <= |t| && IsBlank(t[..i]) && IsBlank(t[j..]) ::
        t[i..j] == s[i..j] && IsBlank(s[..i]) && IsBlank(s[j..]) by {
        forall i, j | 0 <= i <= j <= |t| && IsBlank(t[..i]) && IsBlank(t[j..])
          ensures IsBlank(s[j..])
        {
          assert s[j..] == t[j..] + [s[|s| - 1]];
        }
      }
      Trim(t)
    else
      assert s == s[0..|s|] && IsBlank(s[..0]) && IsBlank(s[|s|..]);
      s
  }

  /**
   * The trimmed text starts and ends with a visible character, and it is
   * empty exactly when `s` is blank.
   */
  lemma {:induction false} TrimFacts(s: string)
    ensures Trim(s) == [] <==> IsBlank(s)
    ensures Trim(s) != [] ==> !IsSpace(Trim(s)[0]) && !IsSpace(Trim(s)[|Trim(s)| - 1])
    decreases |s|
  {
    if s != [] {
      if IsSpace(s[0]) {
        TrimFacts(s[1..]);
        assert IsBlank(s) <==> IsBlank(s[1..]);
      } else if IsSpace(s[|s| - 1]) {
        TrimFacts(s[..|s| - 1]);
        assert IsBlank(s) <==> IsBlank(s[..|s| - 1]);
      }
    }
  }

  /** The trimmed text is at least as long as the number of non-whitespace characters in the text. */
  lemma TrimKeepsVisibleLength(s: string)
    ensures |RemoveSpaces(s)| <= |Trim(s)|
  {
    RemoveSpacesShorter(Trim(s));
  }

  /** `toLowerCase` restricted to ASCII letters: one character in, one character out. */
  function LowerChar(c: char): char {
    if 'A' <= c <= 'Z' then (c as int + 32) as char else c
  }

  function Lower(s: string): (r: string)
    ensures |r| == |s|
    ensures forall i :: 0 <= i < |s| ==> r[i] == LowerChar(s[i])
  {
    seq(|s|, i requires 0 <= i < |s| => LowerChar(s[i]))
  }

  /** Lowering changes exactly the upper-case ASCII letters, each into a lower-case one. */
  lemma LowerCharChanges(c: char)
    ensures LowerChar(c) != c <==> 'A' <= c <= 'Z'
    ensures 'A' <= c <= 'Z' ==> 'a' <= LowerChar(c) <= 'z'
  {
  }

  /**
   * A lowered string has no upper-case ASCII letter left, keeps every
   * other character where it was, and lowering it again changes nothing.
   */
  lemma LowerFacts(s: string)
    ensures forall i :: 0 <= i < |s| ==> !('A' <= Lower(s)[i] <= 'Z')
    ensures forall i :: 0 <= i < |s| && !('A' <= s[i] <= 'Z') ==> Lower(s)[i] == s[i]
    ensures Lower(Lower(s)) == Lower(s)
  {
    forall i | 0 <= i < |s|
      ensures !('A' <= Lower(s)[i] <= 'Z') && Lower(Lower(s))[i] == Lower(s)[i]
    {
      LowerCharChanges(s[i]);
    }
  }

  /** Lowering commutes with taking a slice. */
  lemma LowerSlice(s: string, i: nat, j: nat)
    requires i <= j <= |s|
    ensures Lower(s)[i..j] == Lower(s[i..j])
  {
  }

  /** `t` occurs in `s` starting at index `k`. */
  predicate OccursAt(s: string, t: string, k: nat) {
    k + |t| <= |s| && s[k..k + |t|] == t
  }

  /** `s.includes(t)`. */
  predicate Includes(s: string, t: string) {
    exists k | 0 <= k <= |s| :: OccursAt(s, t, k)
  }

  /** `s.indexOf(t, from)`: the first occurrence at or after `from`, or -1. */
  function IndexOfFrom(s: string, t: string, from: nat): (r: int)
    requires from <= |s|
    ensures r == -1 || (from <= r <= |s| && OccursAt(s, t, r))
    ensures r == -1 ==> forall k :: from <= k <= |s| ==> !OccursAt(s, t, k)
    ensures r != -1 ==> forall k :: from <= k < r ==> !OccursAt(s, t, k)
    decreases |s| - from
  {
    if OccursAt(s, t, from) then from
    else if from == |s| then -1
    else IndexOfFrom(s, t, from + 1)
  }

  /** `s.indexOf(t)`: the first occurrence of `t` in `s`, or -1 when there is none. */
  function IndexOf(s: string, t: string): (r: int)
    ensures r == -1 || (0 <= r <= |s| && OccursAt(s, t, r))
    ensures r == -1 <==> !Includes(s, t)
    ensures forall k :: 0 <= k < r ==> !OccursAt(s, t, k)
  {
    IndexOfFrom(s, t, 0)
  }

  /** `items.join(sep)`. */
  function Join(items: seq<string>, sep: string): string {
    if |items| == 0 then ""
    else if |items| == 1 then items[0]
    else items[0] + sep + Join(items[1..], sep)
  }

  /** `s.split(c)` for a one-character string separator. */
  function SplitOn(s: string, c: char): (r: seq<string>)
    ensures |r| >= 1
  {
    if s == [] then [""]
    else
      var rest := SplitOn(s[1..], c);
      if s[0] == c then [""] + rest
      else [[s[0]] + rest[0]] + rest[1..]
  }

  lemma {:induction false} SplitOnNoSeparator(a: string, c: char)
    requires c !in a
    ensures SplitOn(a, c) == [a]
  {
    if a != [] {
      assert a[0] != c && c !in a[1..];
      SplitOnNoSeparator(a[1..], c);
      assert [a[0]] + a[1..] == a;
    }
  }

  lemma {:induction false} SplitOnAfterPiece(a: string, c: char, rest: string)
    requires c !in a
    ensures SplitOn(a + [c] + rest, c) == [a] + SplitOn(rest, c)
  {
    if a == [] {
      assert (a + [c] + rest)[1..] == rest;
    } else {
      assert (a + [c] + rest)[1..] == a[1..] + [c] + rest;
      SplitOnAfterPiece(a[1..], c, rest);
      assert [a[0]] + a[1..] == a;
    }
  }

  /**
   * Splitting a join on its separator gives back the items, provided no
   * item contains the separator.
   */
  lemma {:induction false} SplitOnJoin(items: seq<string>, c: char)
    requires |items| >= 1
    requires forall k :: 0 <= k < |items| ==> c !in items[k]
    ensures SplitOn(Join(items, [c]), c) == items
  {
    if |items| == 1 {
      SplitOnNoSeparator(items[0], c);
    } else {
      SplitOnJoin(items[1..], c);
      SplitOnAfterPiece(items[0], c, Join(items[1..], [c]));
      assert [items[0]] + items[1..] == items;
    }
  }

  /** The concatenation of `parts`, in order. */
  function Concat(parts: seq<string>): string {
    if parts == [] then [] else parts[0] + Concat(parts[1..])
  }

  /** `Math.round(num / den)`: the integer nearest to num/den, halves rounded up. */
  function RoundRatio(num: int, den: int): (r: int)
    requires den > 0
    ensures 2 * den * r <= 2 * num + den < 2 * den * (r + 1)
  {
    (2 * num + den) / (2 * den)
  }

  /** The digit character of `d`. */
  function Digit(d: nat): char
    requires d < 10
  {
    ['0', '1', '2', '3', '4', '5', '6', '7', '8', '9'][d]
  }

  /** `String(n)` for a non-negative integer: its decimal digits. */
  function NatToString(n: nat): string {
    if n < 10 then [Digit(n)] else NatToString(n / 10) + [Digit(n % 10)]
  }

  /** The printed form is never empty, and is one digit long exactly below 10. */
  lemma {:induction false} NatToStringLength(n: nat)
    ensures |NatToString(n)| >= 1
    ensures |NatToString(n)| == 1 <==> n < 10
  {
    if n >= 10 {
      NatToStringLength(n / 10);
    }
  }

  /** The printed form is made of decimal digits only. */
  lemma {:induction false} NatToStringDigits(n: nat)
    ensures forall i :: 0 <= i < |NatToString(n)| ==> '0' <= NatToString(n)[i] <= '9'
  {
    if n >= 10 {
      NatToStringDigits(n / 10);
    }
  }

  /** Different numbers print differently. */
  lemma {:induction false} NatToStringInjective(m: nat, n: nat)
    requires NatToString(m) == NatToString(n)
    ensures m == n
  {
    NatToStringLength(m);
    NatToStringLength(n);
    if m >= 10 && n >= 10 {
      var a, b := NatToString(m), NatToString(n);
      assert a[..|a| - 1] == NatToString(m / 10);
      assert b[..|b| - 1] == NatToString(n / 10);
      NatToStringInjective(m / 10, n / 10);
      assert Digit(m % 10) == a[|a| - 1] == b[|b| - 1] == Digit(n % 10);
    }
  }
}
