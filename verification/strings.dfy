/**
 * The two pieces of ActiveSupport / core Ruby string behaviour the model
 * relies on: `blank?` on a nullable string and `Array#join`.
 */
module Strings {
  import opened Wrappers

  /**
   * A character matched by `[[:space:]]` in a Unicode string: the characters
   * with the Unicode White_Space property.
   */
  predicate IsSpace(c: char) {
    c == ' ' || ('\t' <= c <= '\r') || c == '\U{85}' || c == '\U{A0}' ||
    c == '\U{1680}' || ('\U{2000}' <= c <= '\U{200A}') || c == '\U{2028}' ||
    c == '\U{2029}' || c == '\U{202F}' || c == '\U{205F}' || c == '\U{3000}'
  }

  /** `s.blank?`: nil, empty, or made of white space only. */
  predicate Blank(s: Option<string>) {
    s.None? || forall i :: 0 <= i < |s.value| ==> IsSpace(s.value[i])
  }

  /**
   * `parts.join(sep)`: the parts in order, separated by `sep`. The result
   * ends where the last part, placed after the others and their separators,
   * ends.
   */
  function Join(parts: seq<string>, sep: string): (r: string)
    ensures parts == [] ==> r == ""
    ensures parts != [] ==> |r| == Start(parts, sep, |parts| - 1) + |parts[|parts| - 1]|
  {
    if parts == [] then ""
    else if |parts| == 1 then parts[0]
    else parts[0] + sep + Join(parts[1..], sep)
  }

  /** Where part `k` begins in `Join(parts, sep)`: after the earlier parts, each followed by `sep`. */
  function Start(parts: seq<string>, sep: string, k: nat): nat
    requires k < |parts|
  {
    if k == 0 then 0 else |parts[0]| + |sep| + Start(parts[1..], sep, k - 1)
  }

  /** The next part begins after this one and one separator. */
  lemma {:induction false} StartNext(parts: seq<string>, sep: string, k: nat)
    requires k + 1 < |parts|
    ensures Start(parts, sep, k + 1) == Start(parts, sep, k) + |parts[k]| + |sep|
  {
    if k > 0 {
      StartNext(parts[1..], sep, k - 1);
      assert parts[1..][k - 1] == parts[k];
    }
  }

  /** A slice that lies within the second of two joined strings. */
  lemma SliceOfSecond(a: string, b: string, i: nat, j: nat)
    requires |a| <= i <= j <= |a| + |b|
    ensures (a + b)[i..j] == b[i - |a|..j - |a|]
  {
    assert forall n :: 0 <= n < j - i ==> (a + b)[i..j][n] == b[i - |a|..j - |a|][n];
  }

  /** `Join(parts, sep)` holds each part at its place. */
  lemma {:induction false} JoinPlacesPart(parts: seq<string>, sep: string, k: nat)
    requires k < |parts|
    ensures var r, i := Join(parts, sep), Start(parts, sep, k);
      i + |parts[k]| <= |r| && r[i..i + |parts[k]|] == parts[k]
  {
    if |parts| > 1 {
      var head, rest := parts[0] + sep, Join(parts[1..], sep);
      if k == 0 {
        assert (parts[0] + (sep + rest))[..|parts[0]|] == parts[0];
        assert parts[0] + (sep + rest) == Join(parts, sep);
      } else {
        JoinPlacesPart(parts[1..], sep, k - 1);
        assert parts[1..][k - 1] == parts[k];
        var i := Start(parts[1..], sep, k - 1);
        assert Join(parts, sep) == head + rest;
        assert Start(parts, sep, k) == |head| + i;
        SliceOfSecond(head, rest, |head| + i, |head| + i + |parts[k]|);
      }
    }
  }

  /**
   * `Join(parts, sep)` holds `sep` between each part and the next, and the
   * next part begins right after it: the parts can be read back from the
   * joined text.
   */
  lemma {:induction false} JoinSeparatesParts(parts: seq<string>, sep: string, k: nat)
    requires k + 1 < |parts|
    ensures var r, i := Join(parts, sep), Start(parts, sep, k) + |parts[k]|;
      i + |sep| <= |r| && r[i..i + |sep|] == sep && Start(parts, sep, k + 1) == i + |sep|
  {
    StartNext(parts, sep, k);
    var head, rest := parts[0] + sep, Join(parts[1..], sep);
    if k == 0 {
      assert (head + rest)[|parts[0]|..|head|] == sep;
    } else {
      JoinSeparatesParts(parts[1..], sep, k - 1);
      assert parts[1..][k - 1] == parts[k];
      var i := Start(parts[1..], sep, k - 1) + |parts[k]|;
      SliceOfSecond(head, rest, |head| + i, |head| + i + |sep|);
    }
  }
}
