/**
 * The two functions of Go's `strings` package that the editor lookup relies on:
 * `strings.Split(s, " ")` and `strings.TrimSpace(s)`, with `strings.Join(parts, " ")`
 * as the inverse that pins `Split` down. Strings are sequences of Unicode code points.
 */
module GoStrings {

  /**
   * Go's `unicode.IsSpace`: the code points with the Unicode White_Space property,
   * tab to carriage return, space, U+0085, U+00A0, U+1680, U+2000 to U+200A,
   * U+2028, U+2029, U+202F, U+205F and U+3000.
   */
  predicate IsSpace(c: char) {
    var n := c as int;
    || 0x09 <= n <= 0x0D || n == 0x20 || n == 0x85 || n == 0xA0 || n == 0x1680
    || 0x2000 <= n <= 0x200A || n == 0x2028 || n == 0x2029 || n == 0x202F || n == 0x205F || n == 0x3000
  }

  /** `strings.Join(parts, " ")`. */
  function JoinOnSpace(parts: seq<string>): string
  {
    if |parts| == 0 then ""
    else if |parts| == 1 then parts[0]
    else parts[0] + " " + JoinOnSpace(parts[1..])
  }

  /** No piece holds the space separator. */
  predicate SpaceFree(parts: seq<string>) {
    forall k :: 0 <= k < |parts| ==> ' ' !in parts[k]
  }

  /** `strings.Split(s, " ")`: cuts `s` at every space character; there is always at least one piece. */
  function SplitOnSpace(s: string): (parts: seq<string>)
    ensures |parts| >= 1
    decreases |s|
  {
    if s == [] then [[]]
    else
      var rest := SplitOnSpace(s[1..]);
      if s[0] == ' ' then [[]] + rest
      else [[s[0]] + rest[0]] + rest[1..]
  }

  /**
   * The contract Go documents for `strings.Split`: no piece holds the separator,
   * and joining the pieces back with the separator gives `s` again.
   */
  lemma {:induction false} SplitOnSpaceJoin(s: string)
    ensures SpaceFree(SplitOnSpace(s))
    ensures JoinOnSpace(SplitOnSpace(s)) == s
    decreases |s|
  {
    if s != [] {
      var rest := SplitOnSpace(s[1..]);
      SplitOnSpaceJoin(s[1..]);
      var parts := SplitOnSpace(s);
      assert s == [s[0]] + s[1..];
      if s[0] == ' ' {
        assert parts[1..] == rest;
        forall k | 0 < k < |parts| ensures ' ' !in parts[k] {
          assert parts[k] == rest[k - 1];
        }
      } else {
        assert parts[1..] == rest[1..];
        assert |rest| > 1 ==> JoinOnSpace(rest) == rest[0] + " " + JoinOnSpace(rest[1..]);
        forall k | 0 <= k < |parts| ensures ' ' !in parts[k] {
          if k > 0 { assert parts[k] == rest[k]; }
          else { assert ' ' !in rest[0]; }
        }
      }
    }
  }

  /** A string without separators is a single piece. */
  lemma {:induction false} SplitWithoutSpace(p: string)
    requires ' ' !in p
    ensures SplitOnSpace(p) == [p]
    decreases |p|
  {
    if p != [] {
      assert ' ' !in p[1..];
      SplitWithoutSpace(p[1..]);
      assert [p[0]] + p[1..] == p;
    }
  }

  /** Splitting distributes over a separator: the pieces of each side, in order. */
  lemma {:induction false} SplitAround(a: string, b: string)
    ensures SplitOnSpace(a + " " + b) == SplitOnSpace(a) + SplitOnSpace(b)
    decreases |a|
  {
    if a == [] {
      assert (a + " " + b)[1..] == b;
    } else {
      assert (a + " " + b)[1..] == a[1..] + " " + b;
      SplitAround(a[1..], b);
    }
  }

  /** `Split` inverts `Join` on pieces that hold no separator: the round trip. */
  lemma {:induction false} SplitJoin(parts: seq<string>)
    requires |parts| >= 1
    requires SpaceFree(parts)
    ensures SplitOnSpace(JoinOnSpace(parts)) == parts
    decreases |parts|
  {
    assert ' ' !in parts[0];
    SplitWithoutSpace(parts[0]);
    if |parts| > 1 {
      assert SpaceFree(parts[1..]) by {
        forall k | 0 <= k < |parts| - 1 ensures ' ' !in parts[1..][k] {
          assert parts[1..][k] == parts[k + 1];
        }
      }
      SplitJoin(parts[1..]);
      SplitAround(parts[0], JoinOnSpace(parts[1..]));
      assert [parts[0]] + parts[1..] == parts;
    }
  }

  /** Every character of `s` satisfies `f`. */
  predicate All(s: string, f: char -> bool) {
    forall i :: 0 <= i < |s| ==> f(s[i])
  }

  /** Every piece is all-`f`. */
  predicate AllPieces(parts: seq<string>, f: char -> bool) {
    forall k :: 0 <= k < |parts| ==> All(parts[k], f)
  }

  /** A string is all-`f` when its two halves around any cut are. */
  lemma AllAround(s: string, i: int, f: char -> bool)
    requires 0 <= i <= |s|
    requires All(s[..i], f) && All(s[i..], f)
    ensures All(s, f)
  {
    forall k | 0 <= k < |s| ensures f(s[k]) {
      if k < i { assert s[k] == s[..i][k]; } else { assert s[k] == s[i..][k - i]; }
    }
  }

  /** A joined string is all-`f` exactly when every piece is, given that the separator is. */
  lemma {:induction false} AllJoin(parts: seq<string>, f: char -> bool)
    requires f(' ')
    ensures All(JoinOnSpace(parts), f) <==> AllPieces(parts, f)
    decreases |parts|
  {
    if |parts| > 1 {
      AllJoin(parts[1..], f);
      var rest := JoinOnSpace(parts[1..]);
      var s := parts[0] + " " + rest;
      var n := |parts[0]|;
      assert s[..n] == parts[0];
      assert s[n..] == " " + rest;
      if All(parts[0], f) && All(rest, f) {
        assert All(" " + rest, f) by {
          forall k | 0 <= k < |rest| + 1 ensures f((" " + rest)[k]) {
            if k > 0 { assert (" " + rest)[k] == rest[k - 1]; }
          }
        }
        AllAround(s, n, f);
      }
      if All(s, f) {
        assert All(parts[0], f) by {
          forall k | 0 <= k < n ensures f(parts[0][k]) { assert parts[0][k] == s[k]; }
        }
        assert All(rest, f) by {
          forall k | 0 <= k < |rest| ensures f(rest[k]) { assert rest[k] == s[n + 1 + k]; }
        }
      }
      assert forall k :: 0 <= k < |parts| - 1 ==> parts[1..][k] == parts[k + 1];
    }
  }

  /** `strings.TrimLeftFunc(s, f)`: drops the longest prefix whose characters satisfy `f`. */
  function TrimLeftFunc(s: string, f: char -> bool): string
    decreases |s|
  {
    if s != [] && f(s[0]) then TrimLeftFunc(s[1..], f) else s
  }

  /** `l` is a suffix of `s`, after an all-`f` prefix, that does not start with an `f`-character. */
  ghost predicate LeftTrimmed(s: string, l: string, f: char -> bool) {
    |l| <= |s| && l == s[|s| - |l|..] && All(s[..|s| - |l|], f) && (l == [] || !f(l[0]))
  }

  /** What `TrimLeftFunc` leaves. */
  lemma {:induction false} TrimLeftFuncSuffix(s: string, f: char -> bool)
    ensures LeftTrimmed(s, TrimLeftFunc(s, f), f)
    decreases |s|
  {
    if s != [] && f(s[0]) {
      TrimLeftFuncSuffix(s[1..], f);
      var r := TrimLeftFunc(s[1..], f);
      assert s[..|s| - |r|] == [s[0]] + s[1..][..|s| - 1 - |r|];
    }
  }

  /** `strings.TrimRightFunc(s, f)`: drops the longest suffix whose characters satisfy `f`. */
  function TrimRightFunc(s: string, f: char -> bool): string
    decreases |s|
  {
    if s != [] && f(s[|s| - 1]) then TrimRightFunc(s[..|s| - 1], f) else s
  }

  /** `r` is a prefix of `s`, before an all-`f` suffix, that does not end with an `f`-character. */
  ghost predicate RightTrimmed(s: string, r: string, f: char -> bool) {
    |r| <= |s| && r == s[..|r|] && All(s[|r|..], f) && (r == [] || !f(r[|r| - 1]))
  }

  /** What `TrimRightFunc` leaves. */
  lemma {:induction false} TrimRightFuncPrefix(s: string, f: char -> bool)
    ensures RightTrimmed(s, TrimRightFunc(s, f), f)
    decreases |s|
  {
    if s != [] && f(s[|s| - 1]) {
      TrimRightFuncPrefix(s[..|s| - 1], f);
      var r := TrimRightFunc(s[..|s| - 1], f);
      assert s[|r|..] == s[..|s| - 1][|r|..] + [s[|s| - 1]];
    }
  }

  /** `r` is the part of `s` that starts at `i`, with only `f`-characters around it. */
  ghost predicate TrimmedAt(s: string, i: int, r: string, f: char -> bool) {
    0 <= i <= i + |r| <= |s| && s[i..i + |r|] == r && All(s[..i], f) && All(s[i + |r|..], f)
  }

  /** `strings.TrimFunc(s, f)`: `s` without its leading and trailing `f`-characters. */
  function TrimFunc(s: string, f: char -> bool): string
  {
    TrimRightFunc(TrimLeftFunc(s, f), f)
  }

  /**
   * What `TrimFunc` leaves: the stretch of `s` after its leading `f`-characters
   * with only `f`-characters after it; nothing exactly when every character
   * satisfies `f`, and otherwise a string that starts and ends with a character
   * that does not.
   */
  lemma TrimFuncInfix(s: string, f: char -> bool)
    ensures var r := TrimFunc(s, f);
      && TrimmedAt(s, |s| - |TrimLeftFunc(s, f)|, r, f)
      && (r == [] <==> All(s, f))
      && (r != [] ==> !f(r[0]) && !f(r[|r| - 1]))
  {
    var l := TrimLeftFunc(s, f);
    var r := TrimRightFunc(l, f);
    assert r == TrimFunc(s, f);
    TrimLeftFuncSuffix(s, f);
    TrimRightFuncPrefix(l, f);
    TrimPieces(s, l, r, f);
  }

  /** A suffix `l` of `s` after an all-`f` prefix, and a prefix `r` of `l` before an all-`f` suffix. */
  lemma TrimPieces(s: string, l: string, r: string, f: char -> bool)
    requires LeftTrimmed(s, l, f) && RightTrimmed(l, r, f)
    ensures TrimmedAt(s, |s| - |l|, r, f)
    ensures r == [] <==> All(s, f)
    ensures r != [] ==> !f(r[0]) && !f(r[|r| - 1])
  {
    var i := |s| - |l|;
    assert s[i..i + |r|] == l[..|r|];
    assert s[i + |r|..] == l[|r|..];
    if r == [] {
      AllAround(s, i, f);
    } else {
      assert r[0] == l[0] == s[i];
    }
  }

  /** Every character of `s` is white space (vacuously so for the empty string). */
  predicate Blank(s: string) {
    All(s, IsSpace)
  }

  /** `strings.TrimSpace(s)`: `TrimFunc` with Go's white-space classification. */
  function TrimSpace(s: string): string
  {
    TrimFunc(s, IsSpace)
  }

  /**
   * What trimming white space leaves: nothing exactly when `s` is blank, and
   * otherwise a string that neither starts nor ends with white space.
   */
  lemma TrimSpaceTrims(s: string)
    ensures TrimSpace(s) == [] <==> Blank(s)
    ensures TrimSpace(s) != [] ==> !IsSpace(TrimSpace(s)[0]) && !IsSpace(TrimSpace(s)[|TrimSpace(s)| - 1])
  {
    TrimFuncInfix(s, IsSpace);
  }

  /** Trimming adds no character: one absent from `s` is absent from its trim. */
  lemma TrimSpaceAddsNothing(s: string, c: char)
    requires c !in s
    ensures c !in TrimSpace(s)
  {
    var r := TrimSpace(s);
    var i := |s| - |TrimLeftFunc(s, IsSpace)|;
    TrimFuncInfix(s, IsSpace);
    assert TrimmedAt(s, i, r, IsSpace);
    forall k | 0 <= k < |r| ensures r[k] != c {
      assert r[k] == s[i + k];
    }
  }

  /** A string that neither starts nor ends with white space is its own trim. */
  lemma TrimSpaceOfTrimmed(s: string)
    requires s == [] || (!IsSpace(s[0]) && !IsSpace(s[|s| - 1]))
    ensures TrimSpace(s) == s
  {
  }
}
