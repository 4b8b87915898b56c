/**
  Text primitives the changelog pipeline is built on: lower-casing, substring
  search, whitespace, `str.strip` and `'\n'.join`.

  Lower-casing is ASCII only ('A'..'Z' to 'a'..'z'); Python's `str.lower()` and
  `re.IGNORECASE` also fold non-ASCII letters, which this model does not.
 */
module Strings {

  /** ASCII lower-casing of one character. */
  function LowerChar(c: char): char {
    if 'A' <= c <= 'Z' then (c as int + 32) as char else c
  }

  /** `s.lower()`, restricted to ASCII letters. */
  function Lower(s: string): string {
    seq(|s|, i requires 0 <= i < |s| => LowerChar(s[i]))
  }

  lemma LowerConcat(a: string, b: string)
    ensures Lower(a + b) == Lower(a) + Lower(b)
  {
    assert forall i :: 0 <= i < |a + b| ==> Lower(a + b)[i] == (Lower(a) + Lower(b))[i];
  }

  /** `k` occurs in `s` starting at index `i`. */
  ghost predicate OccursAt(s: string, k: string, i: int) {
    0 <= i && i + |k| <= |s| && s[i..i + |k|] == k
  }

  /** Python's `k in s` for strings, as a specification. */
  ghost predicate Occurs(s: string, k: string) {
    exists i :: OccursAt(s, k, i)
  }

  lemma OccursDropFirst(s: string, k: string)
    requires s != [] && !(k <= s)
    ensures Occurs(s, k) <==> Occurs(s[1..], k)
  {
    if Occurs(s, k) {
      var i :| OccursAt(s, k, i);
      assert s[1..][i - 1..i - 1 + |k|] == s[i..i + |k|];
      assert OccursAt(s[1..], k, i - 1);
    }
    if Occurs(s[1..], k) {
      var j :| OccursAt(s[1..], k, j);
      assert s[j + 1..j + 1 + |k|] == s[1..][j..j + |k|];
      assert OccursAt(s, k, j + 1);
    }
  }

  /** Substring test, `k in s`. */
  function Contains(s: string, k: string): (b: bool)
    ensures b <==> Occurs(s, k)
    decreases |s|
  {
    if k <= s then
      assert OccursAt(s, k, 0);
      true
    else if s == [] then
      false
    else
      OccursDropFirst(s, k);
      Contains(s[1..], k)
  }

  /** `any(k in s for k in keys)`. */
  function ContainsAny(s: string, keys: seq<string>): (b: bool)
    ensures b <==> exists i :: 0 <= i < |keys| && Occurs(s, keys[i])
  {
    if keys == [] then false
    else if Contains(s, keys[0]) then true
    else
      var b := ContainsAny(s, keys[1..]);
      assert forall i :: 1 <= i < |keys| ==> keys[i] == keys[1..][i - 1];
      b
  }

  /** `k` cannot occur in the lower-cased `s` when one of its characters never appears there. */
  lemma AbsentChar(s: string, k: string, c: char)
    requires c in k
    requires forall x :: x in s ==> LowerChar(x) != c
    ensures !Occurs(Lower(s), k)
  {
  }

  /**
    Python's `str.isspace()` on one character, which is also what `\s` matches
    in a `str` pattern: the ASCII controls 9..13 and 28..31, the space, and the
    Unicode separators.
   */
  predicate IsSpace(c: char) {
    var n := c as int;
    n == 0x20 || 0x09 <= n <= 0x0D || 0x1C <= n <= 0x1F || n == 0x85 || n == 0xA0 ||
    n == 0x1680 || 0x2000 <= n <= 0x200A || n == 0x2028 || n == 0x2029 ||
    n == 0x202F || n == 0x205F || n == 0x3000
  }

  /** The first index at or after `j` that does not hold whitespace (or `|s|`). */
  function SkipSpace(s: string, j: nat): (w: nat)
    requires j <= |s|
    ensures j <= w <= |s|
    ensures forall t :: j <= t < w ==> IsSpace(s[t])
    ensures w == |s| || !IsSpace(s[w])
    decreases |s| - j
  {
    if j == |s| || !IsSpace(s[j]) then j else SkipSpace(s, j + 1)
  }

  /** The first index at or after `j` that holds a newline (or `|s|`). */
  function LineEnd(s: string, j: nat): (e: nat)
    requires j <= |s|
    ensures j <= e <= |s|
    ensures forall t :: j <= t < e ==> s[t] != '\n'
    ensures e == |s| || s[e] == '\n'
    decreases |s| - j
  {
    if j == |s| || s[j] == '\n' then j else LineEnd(s, j + 1)
  }

  /** The largest `b` with `a <= b <= e` such that `s[b..e]` is all whitespace. */
  function TrailStart(s: string, a: nat, e: nat): (b: nat)
    requires a <= e <= |s|
    ensures a <= b <= e
    ensures forall t :: b <= t < e ==> IsSpace(s[t])
    ensures b == a || !IsSpace(s[b - 1])
    decreases e
  {
    if e == a || !IsSpace(s[e - 1]) then e else TrailStart(s, a, e - 1)
  }

  /** Python's `s.strip()`: `s` without its leading and trailing whitespace. */
  function Strip(s: string): (r: string)
    ensures exists a, b ::
              && 0 <= a <= b <= |s| && r == s[a..b]
              && (forall t :: 0 <= t < a ==> IsSpace(s[t]))
              && (forall t :: b <= t < |s| ==> IsSpace(s[t]))
    ensures r == [] || (!IsSpace(r[0]) && !IsSpace(r[|r| - 1]))
  {
    var a := SkipSpace(s, 0);
    var b := TrailStart(s, a, |s|);
    assert b > a ==> s[a..b][0] == s[a] && s[a..b][b - a - 1] == s[b - 1];
    s[a..b]
  }

  /** What `Strip` leaves of a string that holds no newline holds none either. */
  lemma StripKeepsNoNewline(s: string)
    requires '\n' !in s
    ensures '\n' !in Strip(s)
  {
    var r := Strip(s);
    var a, b :| 0 <= a <= b <= |s| && r == s[a..b];
    assert forall x :: x in r ==> x in s;
  }

  /** `Strip` of a string made only of whitespace is empty. */
  lemma StripAllSpace(s: string)
    requires forall t :: 0 <= t < |s| ==> IsSpace(s[t])
    ensures Strip(s) == []
  {
    var r := Strip(s);
    var a, b :| 0 <= a <= b <= |s| && r == s[a..b];
  }

  /** The empty string occurs everywhere, so a string absent from `s` is not empty. */
  lemma AbsentIsNonEmpty(s: string, k: string)
    requires !Occurs(s, k)
    ensures k != []
  {
    if k == [] {
      assert OccursAt(s, k, 0);
    }
  }

  /** A non-empty string without a newline does not occur in a lone newline. */
  lemma NotInNewline(k: string)
    requires k != [] && '\n' !in k
    ensures !Occurs("\n", k)
  {
    if Occurs("\n", k) {
      var i :| OccursAt("\n", k, i);
      NewlineInWindow("\n", k, i, 0);
    }
  }

  /** An occurrence of `k` that covers a newline of `s` puts a newline in `k`. */
  lemma NewlineInWindow(s: string, k: string, i: int, p: int)
    requires OccursAt(s, k, i) && i <= p < i + |k| && s[p] == '\n'
    ensures '\n' in k
  {
    assert k[p - i] == s[i..i + |k|][p - i];
  }

  /** An occurrence of `k` inside `s[lo..hi]` is an occurrence in that slice. */
  lemma OccursInSlice(s: string, k: string, i: int, lo: int, hi: int)
    requires OccursAt(s, k, i) && 0 <= lo <= i && i + |k| <= hi <= |s|
    ensures OccursAt(s[lo..hi], k, i - lo)
  {
    var w := s[lo..hi][i - lo..i - lo + |k|];
    forall t | 0 <= t < |k|
      ensures w[t] == k[t]
    {
      assert w[t] == s[i + t] == s[i..i + |k|][t];
    }
  }

  /**
    A string without a newline occurs in `a + sep + b`, where `sep` begins and
    ends with a newline and does not itself hold the string, exactly when it
    occurs in `a` or in `b`: no occurrence can straddle a newline.
   */
  lemma OccursAcross(a: string, sep: string, b: string, k: string)
    requires |sep| > 0 && sep[0] == '\n' && sep[|sep| - 1] == '\n'
    requires '\n' !in k && !Occurs(sep, k)
    ensures Occurs(a + sep + b, k) <==> Occurs(a, k) || Occurs(b, k)
  {
    var s := a + sep + b;
    if Occurs(a, k) {
      var i :| OccursAt(a, k, i);
      assert s[i..i + |k|] == a[i..i + |k|];
      assert OccursAt(s, k, i);
    }
    if Occurs(b, k) {
      var i :| OccursAt(b, k, i);
      var j := |a| + |sep| + i;
      assert s[j..j + |k|] == b[i..i + |k|];
      assert OccursAt(s, k, j);
    }
    if Occurs(s, k) {
      var i :| OccursAt(s, k, i);
      if i + |k| <= |a| {
        assert a[i..i + |k|] == s[i..i + |k|];
        assert OccursAt(a, k, i);
      } else if i >= |a| + |sep| {
        var j := i - |a| - |sep|;
        assert b[j..j + |k|] == s[i..i + |k|];
        assert OccursAt(b, k, j);
      } else if i < |a| {
        NewlineInWindow(s, k, i, |a|);
      } else if i + |k| <= |a| + |sep| {
        assert s[|a|..|a| + |sep|] == sep;
        OccursInSlice(s, k, i, |a|, |a| + |sep|);
      } else {
        NewlineInWindow(s, k, i, |a| + |sep| - 1);
      }
    }
  }

  /** `'\n'.join(parts)`. */
  function Join(parts: seq<string>): string {
    if |parts| == 0 then ""
    else if |parts| == 1 then parts[0]
    else parts[0] + "\n" + Join(parts[1..])
  }

  /** Python's `s[:n]`. */
  function Take(s: string, n: nat): (r: string)
    ensures |r| == if n < |s| then n else |s|
    ensures r <= s
  {
    if n < |s| then s[..n] else s
  }

}
