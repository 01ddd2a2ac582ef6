/**
 * String helpers used by the catalogue's display strings: Python's
 * `", ".join(...)`, its inverse for comma-free parts, and the
 * lexicographic comparison the store uses to order text columns.
 */
module Text {

  /** The summed lengths of the parts. */
  function TotalLength(parts: seq<string>): nat
  {
    if parts == [] then 0 else |parts[0]| + TotalLength(parts[1..])
  }

  /** Where part `i` starts in `sep.join(parts)`: the earlier parts and one separator after each. */
  function PartStart(sep: string, parts: seq<string>, i: nat): nat
    requires i <= |parts|
  {
    TotalLength(parts[..i]) + i * |sep|
  }

  lemma PartStartStep(sep: string, parts: seq<string>, i: nat)
    requires 0 < i <= |parts|
    ensures PartStart(sep, parts, i) == |parts[0]| + |sep| + PartStart(sep, parts[1..], i - 1)
  {
    assert parts[..i][1..] == parts[1..][..i - 1];
  }

  /**
   * `sep.join(parts)`: empty for no parts; otherwise every part sits at its
   * start offset and a separator sits right before every part but the
   * first, so its length is the parts' total plus the separators.
   */
  function Join(sep: string, parts: seq<string>): (r: string)
    ensures |parts| == 0 ==> r == ""
    ensures |parts| > 0 ==> |r| == TotalLength(parts) + |sep| * (|parts| - 1)
    ensures |parts| > 0 ==> r[..|parts[0]|] == parts[0]
    ensures |parts| > 1 ==> r[|parts[0]|..|parts[0]| + |sep|] == sep
    ensures forall i :: 0 <= i < |parts| ==>
      PartStart(sep, parts, i) + |parts[i]| <= |r| &&
      r[PartStart(sep, parts, i)..PartStart(sep, parts, i) + |parts[i]|] == parts[i]
    ensures forall i :: 0 < i < |parts| ==>
      |sep| <= PartStart(sep, parts, i) <= |r| &&
      r[PartStart(sep, parts, i) - |sep|..PartStart(sep, parts, i)] == sep
  {
    if |parts| == 0 then ""
    else if |parts| == 1 then
      assert parts[..0] == [];
      parts[0]
    else
      var rest := Join(sep, parts[1..]);
      JoinLayout(sep, parts, rest);
      parts[0] + sep + rest
  }

  /** A slice of `x + y` that lies inside `y`. */
  lemma SliceRight(x: string, y: string, lo: nat, hi: nat)
    requires lo <= hi <= |y|
    ensures (x + y)[|x| + lo..|x| + hi] == y[lo..hi]
  {
  }

  /** The layout of `parts[0] + sep + rest` from the layout of `rest`. */
  lemma JoinLayout(sep: string, parts: seq<string>, rest: string)
    requires |parts| > 1
    requires forall i :: 0 <= i < |parts[1..]| ==>
      PartStart(sep, parts[1..], i) + |parts[1..][i]| <= |rest| &&
      rest[PartStart(sep, parts[1..], i)..PartStart(sep, parts[1..], i) + |parts[1..][i]|] == parts[1..][i]
    requires forall i :: 0 < i < |parts[1..]| ==>
      |sep| <= PartStart(sep, parts[1..], i) <= |rest| &&
      rest[PartStart(sep, parts[1..], i) - |sep|..PartStart(sep, parts[1..], i)] == sep
    ensures var r := parts[0] + sep + rest;
      && (forall i :: 0 <= i < |parts| ==>
        PartStart(sep, parts, i) + |parts[i]| <= |r| &&
        r[PartStart(sep, parts, i)..PartStart(sep, parts, i) + |parts[i]|] == parts[i])
      && (forall i :: 0 < i < |parts| ==>
        |sep| <= PartStart(sep, parts, i) <= |r| &&
        r[PartStart(sep, parts, i) - |sep|..PartStart(sep, parts, i)] == sep)
  {
    var head := parts[0] + sep;
    var r := head + rest;
    assert PartStart(sep, parts, 0) == 0 by { assert parts[..0] == []; }
    forall i | 0 <= i < |parts|
      ensures PartStart(sep, parts, i) + |parts[i]| <= |r|
      ensures r[PartStart(sep, parts, i)..PartStart(sep, parts, i) + |parts[i]|] == parts[i]
    {
      if i > 0 {
        PartStartStep(sep, parts, i);
        var o := PartStart(sep, parts[1..], i - 1);
        assert parts[1..][i - 1] == parts[i];
        SliceRight(head, rest, o, o + |parts[i]|);
      }
    }
    forall i | 0 < i < |parts|
      ensures |sep| <= PartStart(sep, parts, i) <= |r|
      ensures r[PartStart(sep, parts, i) - |sep|..PartStart(sep, parts, i)] == sep
    {
      PartStartStep(sep, parts, i);
      var o := PartStart(sep, parts[1..], i - 1);
      if i > 1 {
        SliceRight(head, rest, o - |sep|, o);
      } else {
        assert o == 0 by { assert parts[1..][..0] == []; }
      }
    }
  }

  /** Splits a string at every occurrence of ", ", scanning from the left. */
  function Split(s: string): (r: seq<string>)
    ensures |r| >= 1
    decreases |s|
  {
    if |s| >= 2 && s[0] == ',' && s[1] == ' ' then [""] + Split(s[2..])
    else if s == [] then [""]
    else
      var rest := Split(s[1..]);
      [[s[0]] + rest[0]] + rest[1..]
  }

  predicate CommaFree(s: string)
  {
    ',' !in s
  }

  /** A comma-free string is a single piece. */
  lemma {:induction false} SplitCommaFree(x: string)
    requires CommaFree(x)
    ensures Split(x) == [x]
    decreases |x|
  {
    if x != [] {
      assert x[0] != ',';
      SplitCommaFree(x[1..]);
      assert [x[0]] + x[1..] == x;
    }
  }

  /** A comma-free prefix followed by the separator is split off as one piece. */
  lemma {:induction false} SplitAfter(x: string, t: string)
    requires CommaFree(x)
    ensures Split(x + ", " + t) == [x] + Split(t)
    decreases |x|
  {
    var s := x + ", " + t;
    if x == [] {
      assert s[2..] == t;
    } else {
      assert s[0] == x[0] && x[0] != ',';
      assert s[1..] == x[1..] + ", " + t;
      SplitAfter(x[1..], t);
      assert [x[0]] + x[1..] == x;
    }
  }

  /** Joining comma-free parts with ", " and splitting again gives the parts back. */
  lemma {:induction false} SplitJoin(parts: seq<string>)
    requires |parts| >= 1
    requires forall i :: 0 <= i < |parts| ==> CommaFree(parts[i])
    ensures Split(Join(", ", parts)) == parts
  {
    if |parts| == 1 {
      SplitCommaFree(parts[0]);
    } else {
      SplitAfter(parts[0], Join(", ", parts[1..]));
      SplitJoin(parts[1..]);
      assert [parts[0]] + parts[1..] == parts;
    }
  }

  /** Lexicographic order on strings, comparing code points (binary collation). */
  predicate StrLe(s: string, t: string)
    decreases |s|
  {
    s == [] || (t != [] && (s[0] < t[0] || (s[0] == t[0] && StrLe(s[1..], t[1..]))))
  }

  lemma {:induction false} StrLeTotal(s: string, t: string)
    ensures StrLe(s, t) || StrLe(t, s)
    decreases |s|
  {
    if s != [] && t != [] && s[0] == t[0] {
      StrLeTotal(s[1..], t[1..]);
    }
  }

  lemma {:induction false} StrLeTransitive(s: string, t: string, u: string)
    requires StrLe(s, t) && StrLe(t, u)
    ensures StrLe(s, u)
    decreases |s|
  {
    if s != [] && s[0] == t[0] && t[0] == u[0] {
      StrLeTransitive(s[1..], t[1..], u[1..]);
    }
  }

  lemma {:induction false} StrLeAntisymmetric(s: string, t: string)
    requires StrLe(s, t) && StrLe(t, s)
    ensures s == t
    decreases |s|
  {
    if s != [] {
      StrLeAntisymmetric(s[1..], t[1..]);
      assert s == [s[0]] + s[1..] && t == [t[0]] + t[1..];
    }
  }
}
