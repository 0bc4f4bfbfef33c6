/**
 * The string primitives the parser relies on: Python's `str.strip()`,
 * `pat in s`, `s.replace(pat, '')`, `int(s)` and `s.split(sep)`.
 */
module Text {
  import opened Wrappers

  /** Python's `str.isspace()` for a single character: the whitespace `str.strip()` removes. */
  predicate IsSpace(c: char)
  {
    var n := c as int;
    (9 <= n <= 13) || (28 <= n <= 32) || n == 0x85 || n == 0xA0 || n == 0x1680
    || (0x2000 <= n <= 0x200A) || n == 0x2028 || n == 0x2029 || n == 0x202F
    || n == 0x205F || n == 0x3000
  }

  /**
   * The whitespace `int()` skips around a numeral: that of `str.isspace()`
   * except the four separators U+001C to U+001F, which `int()` rejects.
   */
  predicate IsIntSpace(c: char)
  {
    IsSpace(c) && !(28 <= c as int <= 31)
  }

  predicate AllIn(s: string, ws: char -> bool)
  {
    forall i :: 0 <= i < |s| ==> ws(s[i])
  }

  /** Leading characters of class `ws` removed. */
  function TrimLeft(s: string, ws: char -> bool): string
  {
    if s != [] && ws(s[0]) then TrimLeft(s[1..], ws) else s
  }

  /** Trailing characters of class `ws` removed. */
  function TrimRight(s: string, ws: char -> bool): string
  {
    if s != [] && ws(s[|s| - 1]) then TrimRight(s[..|s| - 1], ws) else s
  }

  function Trim(s: string, ws: char -> bool): string
  {
    TrimRight(TrimLeft(s, ws), ws)
  }

  /** Python's `s.strip()`. */
  function Strip(s: string): string
  {
    Trim(s, IsSpace)
  }

  /** Trimming the front drops the leading run of `ws` and nothing else. */
  lemma {:induction false} TrimLeftSpec(s: string, ws: char -> bool)
    ensures var r := TrimLeft(s, ws);
      && |r| <= |s| && r == s[|s| - |r|..]
      && AllIn(s[..|s| - |r|], ws)
      && (r != [] ==> !ws(r[0]))
  {
    if s != [] && ws(s[0]) {
      TrimLeftSpec(s[1..], ws);
      var r := TrimLeft(s, ws);
      assert s[..|s| - |r|] == [s[0]] + s[1..][..|s| - 1 - |r|];
    } else {
      assert s[..0] == [];
    }
  }

  /** Trimming the back drops the trailing run of `ws` and nothing else. */
  lemma {:induction false} TrimRightSpec(s: string, ws: char -> bool)
    ensures var r := TrimRight(s, ws);
      && |r| <= |s| && r == s[..|r|]
      && AllIn(s[|r|..], ws)
      && (r != [] ==> !ws(r[|r| - 1]))
  {
    if s != [] && ws(s[|s| - 1]) {
      var u := s[..|s| - 1];
      TrimRightSpec(u, ws);
      var r := TrimRight(s, ws);
      assert s[|r|..] == u[|r|..] + [s[|s| - 1]];
    } else {
      assert s[|s|..] == [];
    }
  }

  /** `r` is `s` with a run of `ws` cut off at each end: `s[..lo]` at the front and the rest after `r` at the back. */
  predicate TrimmedAt(s: string, lo: int, r: string, ws: char -> bool)
  {
    0 <= lo && lo + |r| <= |s| && s[lo..lo + |r|] == r
    && AllIn(s[..lo], ws) && AllIn(s[lo + |r|..], ws)
  }

  /**
   * Trimming returns the infix of `s` left after removing characters of
   * class `ws` at both ends, and the result neither starts nor ends with one.
   */
  lemma TrimSpec(s: string, ws: char -> bool)
    ensures exists lo :: TrimmedAt(s, lo, Trim(s, ws), ws)
    ensures var r := Trim(s, ws); r != [] ==> !ws(r[0]) && !ws(r[|r| - 1])
  {
    var left := TrimLeft(s, ws);
    var r := TrimRight(left, ws);
    TrimLeftSpec(s, ws);
    TrimRightSpec(left, ws);
    var lo := |s| - |left|;
    assert s[lo..lo + |r|] == r by {
      assert left == s[lo..];
    }
    assert s[lo + |r|..] == left[|r|..];
    assert Trim(s, ws) == r;
    assert TrimmedAt(s, lo, Trim(s, ws), ws);
    if r != [] {
      assert r[0] == left[0];
    }
  }

  /** Trimming text that neither starts nor ends with a character of class `ws` changes nothing. */
  lemma TrimUnchanged(s: string, ws: char -> bool)
    requires s != [] ==> !ws(s[0]) && !ws(s[|s| - 1])
    ensures Trim(s, ws) == s
  {
  }

  predicate OccursAt(s: string, pat: string, i: int)
  {
    0 <= i && i + |pat| <= |s| && s[i..i + |pat|] == pat
  }

  /** Python's `pat in s`, by scanning left to right. */
  function Contains(s: string, pat: string): bool
  {
    if |pat| <= |s| && s[..|pat|] == pat then true
    else if s == [] then false
    else Contains(s[1..], pat)
  }

  /** The scan finds `pat` exactly when `pat` occurs somewhere in `s`. */
  lemma {:induction false} ContainsIff(s: string, pat: string)
    ensures Contains(s, pat) <==> exists i :: OccursAt(s, pat, i)
  {
    if |pat| <= |s| && s[..|pat|] == pat {
      assert OccursAt(s, pat, 0);
    } else if s == [] {
    } else {
      ContainsIff(s[1..], pat);
      if exists i :: OccursAt(s, pat, i) {
        var i :| OccursAt(s, pat, i);
        assert i != 0;
        assert s[1..][i - 1..i - 1 + |pat|] == s[i..i + |pat|];
        assert OccursAt(s[1..], pat, i - 1);
      }
      if exists i :: OccursAt(s[1..], pat, i) {
        var i :| OccursAt(s[1..], pat, i);
        assert s[1..][i..i + |pat|] == s[i + 1..i + 1 + |pat|];
        assert OccursAt(s, pat, i + 1);
      }
    }
  }

  /** Python's `s.replace(pat, '')`: removes the non-overlapping occurrences found left to right. */
  function RemoveAll(s: string, pat: string): string
    requires pat != []
    decreases |s|
  {
    if |pat| <= |s| && s[..|pat|] == pat then RemoveAll(s[|pat|..], pat)
    else if s == [] then []
    else [s[0]] + RemoveAll(s[1..], pat)
  }

  /**
   * Removal never lengthens the text; text without an occurrence of `pat`
   * comes back unchanged; and the leftmost occurrence goes, with removal
   * going on after it, so occurrences are removed left to right without
   * overlapping.
   */
  lemma {:induction false} RemoveAllSpec(s: string, pat: string)
    requires pat != []
    ensures |RemoveAll(s, pat)| <= |s|
    ensures !Contains(s, pat) ==> RemoveAll(s, pat) == s
    ensures forall i :: OccursAt(s, pat, i) && (forall j :: 0 <= j < i ==> !OccursAt(s, pat, j)) ==>
      RemoveAll(s, pat) == s[..i] + RemoveAll(s[i + |pat|..], pat)
    decreases |s|
  {
    if |pat| <= |s| && s[..|pat|] == pat {
      RemoveAllSpec(s[|pat|..], pat);
    } else if s != [] {
      RemoveAllSpec(s[1..], pat);
    }
    forall i | OccursAt(s, pat, i) && (forall j :: 0 <= j < i ==> !OccursAt(s, pat, j))
      ensures RemoveAll(s, pat) == s[..i] + RemoveAll(s[i + |pat|..], pat)
    {
      RemoveAllLeftmost(s, pat, i);
    }
  }

  /** Removal at the leftmost occurrence `i` of `pat`: the text before it is kept, the occurrence dropped. */
  lemma {:induction false} RemoveAllLeftmost(s: string, pat: string, i: int)
    requires pat != [] && OccursAt(s, pat, i)
    requires forall j :: 0 <= j < i ==> !OccursAt(s, pat, j)
    ensures RemoveAll(s, pat) == s[..i] + RemoveAll(s[i + |pat|..], pat)
    decreases i
  {
    if i == 0 {
      assert s[..|pat|] == pat;
      assert s[..0] == [];
    } else {
      var t := s[1..];
      RemoveAllStep(s, pat);
      OccursShift(s, pat, i - 1);
      forall j | 0 <= j < i - 1 ensures !OccursAt(t, pat, j) {
        OccursShift(s, pat, j);
      }
      RemoveAllLeftmost(t, pat, i - 1);
      assert t[i - 1 + |pat|..] == s[i + |pat|..];
      assert s[..i] == [s[0]] + t[..i - 1];
    }
  }

  /** Text that does not start with `pat` keeps its first character. */
  lemma RemoveAllStep(s: string, pat: string)
    requires pat != [] && s != [] && !OccursAt(s, pat, 0)
    ensures RemoveAll(s, pat) == [s[0]] + RemoveAll(s[1..], pat)
  {
  }

  lemma OccursShift(s: string, pat: string, j: int)
    requires s != [] && 0 <= j
    ensures OccursAt(s[1..], pat, j) <==> OccursAt(s, pat, j + 1)
  {
    if j + |pat| <= |s| - 1 {
      assert s[1..][j..j + |pat|] == s[j + 1..j + 1 + |pat|];
    }
  }

  /** Text without the first character of `pat` keeps all of itself, and the trailing `pat` goes. */
  lemma {:induction false} RemoveAllSuffix(x: string, pat: string)
    requires pat != [] && pat[0] !in x
    ensures RemoveAll(x + pat, pat) == x
  {
    if x == [] {
      assert pat[|pat|..] == [];
    } else {
      assert (x + pat)[0] == x[0] != pat[0];
      assert (x + pat)[1..] == x[1..] + pat;
      RemoveAllSuffix(x[1..], pat);
    }
  }

  /** Text ending in `pat` contains `pat`. */
  lemma ContainsSuffix(x: string, pat: string)
    ensures Contains(x + pat, pat)
  {
    ContainsIff(x + pat, pat);
    assert OccursAt(x + pat, pat, |x|);
  }

  predicate IsDigit(c: char)
  {
    '0' <= c <= '9'
  }

  predicate IsDigits(s: string)
  {
    s != [] && forall i :: 0 <= i < |s| ==> IsDigit(s[i])
  }

  /** The value of a decimal numeral (leading zeros allowed). */
  function DigitsValue(s: string): nat
    requires forall i :: 0 <= i < |s| ==> IsDigit(s[i])
  {
    if s == [] then 0
    else
      assert IsDigit(s[|s| - 1]);
      10 * DigitsValue(s[..|s| - 1]) + (s[|s| - 1] as int - '0' as int)
  }

  /** The texts Python's `int()` accepts in this model: an optional sign and ASCII digits. */
  predicate IsNumeral(t: string)
  {
    IsDigits(t) || (t != [] && (t[0] == '+' || t[0] == '-') && IsDigits(t[1..]))
  }

  /** Python's `int(s)`: `None` stands for the `ValueError` it raises. */
  function ParseInt(s: string): Option<int>
  {
    var t := Trim(s, IsIntSpace);
    if IsDigits(t) then Some(DigitsValue(t))
    else if t != [] && (t[0] == '+' || t[0] == '-') && IsDigits(t[1..]) then
      var v: int := DigitsValue(t[1..]);
      Some(if t[0] == '-' then -v else v)
    else None
  }

  function DigitChar(d: int): char
    requires 0 <= d < 10
  {
    ('0' as int + d) as char
  }

  /** `str(n)` for a natural number. */
  function ShowNat(n: nat): (s: string)
    ensures IsDigits(s) && DigitsValue(s) == n
  {
    if n < 10 then
      [DigitChar(n)]
    else
      var s := ShowNat(n / 10) + [DigitChar(n % 10)];
      assert s[..|s| - 1] == ShowNat(n / 10);
      s
  }

  /** `str(n)`. */
  function ShowInt(n: int): (s: string)
    ensures s != [] && 'm' !in s && !IsSpace(s[0]) && !IsSpace(s[|s| - 1])
  {
    if n < 0 then "-" + ShowNat(-n) else ShowNat(n)
  }

  /** `int()` succeeds exactly on an optionally signed decimal numeral with its whitespace trimmed; the sign decides the sign. */
  lemma ParseIntAccepts(s: string)
    ensures ParseInt(s).Some? <==> IsNumeral(Trim(s, IsIntSpace))
    ensures ParseInt(s).Some? && IsDigits(Trim(s, IsIntSpace)) ==> ParseInt(s).value >= 0
    ensures ParseInt(s).Some? && Trim(s, IsIntSpace)[0] == '-' ==> ParseInt(s).value <= 0
  {
    var t := Trim(s, IsIntSpace);
    if IsDigits(t) {
      assert t[0] != '-';
    }
  }

  /** `int(str(n)) == n`. */
  lemma ParseIntShowInt(n: int)
    ensures ParseInt(ShowInt(n)) == Some(n)
  {
    var s := ShowInt(n);
    TrimUnchanged(s, IsIntSpace);
    if n < 0 {
      assert s[1..] == ShowNat(-n);
    }
  }

  /** Whitespace that `int()` skips, around any text, does not change what it reads. */
  lemma ParseIntPadded(pre: string, s: string, post: string)
    requires AllIn(pre, IsIntSpace) && AllIn(post, IsIntSpace)
    ensures ParseInt(pre + s + post) == ParseInt(s)
  {
    TrimPadded(pre, s, post, IsIntSpace);
  }

  /**
   * `int()` reads back the integer `str(n)` wrote, whatever whitespace it
   * skips stands around it; U+001C to U+001F are not such whitespace, and
   * one of them in front of a numeral makes `int()` fail.
   */
  lemma ParseIntPaddedShowInt(pre: string, n: int, post: string)
    requires AllIn(pre, IsIntSpace) && AllIn(post, IsIntSpace)
    ensures ParseInt(pre + ShowInt(n) + post) == Some(n)
    ensures ParseInt([28 as char] + ShowInt(n)) == None
  {
    ParseIntPadded(pre, ShowInt(n), post);
    ParseIntShowInt(n);
    var t := [28 as char] + ShowInt(n);
    assert !IsIntSpace(t[0]);
    TrimUnchanged(t, IsIntSpace);
    assert !IsDigit(t[0]);
  }

  lemma {:induction false} TrimPadded(pre: string, s: string, post: string, ws: char -> bool)
    requires AllIn(pre, ws) && AllIn(post, ws)
    ensures Trim(pre + s + post, ws) == Trim(s, ws)
  {
    TrimLeftPadded(pre, s + post, ws);
    assert pre + s + post == pre + (s + post);
    TrimRightPadded(TrimLeft(s + post, ws), post, ws);
    TrimLeftRight(s, post, ws);
  }

  lemma {:induction false} TrimLeftPadded(pre: string, s: string, ws: char -> bool)
    requires AllIn(pre, ws)
    ensures TrimLeft(pre + s, ws) == TrimLeft(s, ws)
  {
    if pre != [] {
      assert ws((pre + s)[0]);
      assert (pre + s)[1..] == pre[1..] + s;
      TrimLeftPadded(pre[1..], s, ws);
    } else {
      assert pre + s == s;
    }
  }

  lemma {:induction false} TrimRightPadded(s: string, post: string, ws: char -> bool)
    requires AllIn(post, ws)
    ensures TrimRight(s + post, ws) == TrimRight(s, ws)
  {
    if post != [] {
      var n := |post|;
      assert ws((s + post)[|s + post| - 1]);
      assert (s + post)[..|s + post| - 1] == s + post[..n - 1];
      TrimRightPadded(s, post[..n - 1], ws);
    } else {
      assert s + post == s;
    }
  }

  /** Trimming the front of `s + post` and then the back is trimming `s` when `post` is all of class `ws`. */
  lemma {:induction false} TrimLeftRight(s: string, post: string, ws: char -> bool)
    requires AllIn(post, ws)
    ensures TrimRight(TrimLeft(s + post, ws), ws) == TrimRight(TrimLeft(s, ws), ws)
  {
    if s != [] && ws(s[0]) {
      assert (s + post)[1..] == s[1..] + post;
      TrimLeftRight(s[1..], post, ws);
    } else if s == [] {
      assert s + post == post;
      TrimLeftSpec(post, ws);
    } else {
      assert TrimLeft(s + post, ws) == s + post;
      TrimRightPadded(s, post, ws);
    }
  }

  /** Python's `s.split(sep)`: the pieces between separators, always at least one. */
  function Split(s: string, sep: char): (r: seq<string>)
    ensures |r| >= 1
    ensures forall i :: 0 <= i < |r| ==> sep !in r[i]
    ensures Join(r, sep) == s
  {
    if s == [] then
      [[]]
    else
      var t := Split(s[1..], sep);
      if s[0] == sep then
        assert ([[]] + t)[1..] == t;
        [[]] + t
      else
        var r := [[s[0]] + t[0]] + t[1..];
        assert r[1..] == t[1..];
        assert |t| > 1 ==> Join(t, sep) == t[0] + [sep] + Join(t[1..], sep);
        r
  }

  /** `sep.join(ls)`. */
  function Join(ls: seq<string>, sep: char): string
  {
    if ls == [] then []
    else if |ls| == 1 then ls[0]
    else ls[0] + [sep] + Join(ls[1..], sep)
  }

  /** Splitting undoes joining when no piece holds the separator. */
  lemma {:induction false} SplitJoin(ls: seq<string>, sep: char)
    requires |ls| >= 1
    requires forall i :: 0 <= i < |ls| ==> sep !in ls[i]
    ensures Split(Join(ls, sep), sep) == ls
  {
    if |ls| == 1 {
      SplitPrefix(ls[0], [], sep);
      assert ls[0] + [] == ls[0];
    } else {
      var rest := Join(ls[1..], sep);
      SplitJoin(ls[1..], sep);
      assert ls[0] + [sep] + rest == ls[0] + ([sep] + rest);
      assert ([sep] + rest)[0] == sep && ([sep] + rest)[1..] == rest;
      var t := Split([sep] + rest, sep);
      assert t == [[]] + ls[1..];
      SplitPrefix(ls[0], [sep] + rest, sep);
      assert ls[0] + t[0] == ls[0];
      assert t[1..] == ls[1..];
      assert ls == [ls[0]] + ls[1..];
    }
  }

  /** Text before the first separator becomes the front of the first piece. */
  lemma {:induction false} SplitPrefix(x: string, rest: string, sep: char)
    requires sep !in x
    ensures var t := Split(rest, sep); Split(x + rest, sep) == [x + t[0]] + t[1..]
  {
    var t := Split(rest, sep);
    if x != [] {
      assert (x + rest)[0] == x[0] != sep;
      assert (x + rest)[1..] == x[1..] + rest;
      SplitPrefix(x[1..], rest, sep);
      var u := Split(x[1..] + rest, sep);
      assert u[0] == x[1..] + t[0] && u[1..] == t[1..];
      assert [x[0]] + (x[1..] + t[0]) == x + t[0];
    } else {
      assert x + rest == rest;
      assert x + t[0] == t[0];
      assert [t[0]] + t[1..] == t;
    }
  }
}
