/** The JavaScript built-ins the section extractor is made of, on Dafny strings
    (`seq<char>`): `String.prototype.split` with a one-character separator,
    `Array.prototype.join`, `String.prototype.trim`, `String.prototype.startsWith`,
    `Array.prototype.findIndex` and `Array.prototype.filter(Boolean)` on strings.

    `trim` removes the characters that ECMAScript classes as white space or line
    terminators; that set is not enumerated here but passed in as `ws`. */
module Builtins {

  /** `s.split(sep)`: the maximal runs of characters between separators, in order.
      Splitting "" gives [""], and n separators always give n + 1 pieces. */
  function Split(s: string, sep: char): (r: seq<string>)
    ensures |r| == Count(s, sep) + 1
    ensures forall i :: 0 <= i < |r| ==> sep !in r[i]
  {
    if |s| == 0 then [""]
    else
      var rest := Split(s[1..], sep);
      if s[0] == sep then [""] + rest
      else [[s[0]] + rest[0]] + rest[1..]
  }

  /** Number of occurrences of `c` in `s`. */
  function Count(s: string, c: char): nat
  {
    if |s| == 0 then 0 else (if s[0] == c then 1 else 0) + Count(s[1..], c)
  }

  /** `parts.join(sep)`: the parts with `sep` between neighbours; [] joins to "". */
  function Join(parts: seq<string>, sep: string): string
  {
    if |parts| == 0 then ""
    else if |parts| == 1 then parts[0]
    else parts[0] + sep + Join(parts[1..], sep)
  }

  /** `s.startsWith(prefix)` */
  predicate StartsWith(s: string, prefix: string)
  {
    |prefix| <= |s| && s[..|prefix|] == prefix
  }

  /** `s.trim()`: white space removed from both ends of `s`. What is left is no
      longer than `s` and neither starts nor ends with white space; TrimIsInfix
      says it is the part of `s` between the white space at its two ends. */
  function Trim(s: string, ws: char -> bool): (r: string)
    ensures |r| <= |s|
    ensures r != [] ==> !ws(r[0]) && !ws(r[|r| - 1])
    decreases |s|
  {
    if |s| > 0 && ws(s[0]) then Trim(s[1..], ws)
    else if |s| > 0 && ws(s[|s| - 1]) then Trim(s[..|s| - 1], ws)
    else s
  }

  /** `r` is `s` with the white space before index `i` and after `r` removed. */
  ghost predicate IsTrimmedAt(s: string, r: string, i: int, ws: char -> bool)
  {
    0 <= i <= |s| - |r|
    && s[i..i + |r|] == r
    && (forall k :: 0 <= k < i ==> ws(s[k]))
    && (forall k :: i + |r| <= k < |s| ==> ws(s[k]))
  }

  /** What `trim` keeps is an infix of `s`, and all it drops on either side is white space. */
  lemma {:induction false} TrimIsInfix(s: string, ws: char -> bool) returns (i: nat)
    ensures IsTrimmedAt(s, Trim(s, ws), i, ws)
    decreases |s|
  {
    var r := Trim(s, ws);
    if |s| > 0 && ws(s[0]) {
      var i' := TrimIsInfix(s[1..], ws);
      i := i' + 1;
      assert s[i..i + |r|] == s[1..][i'..i' + |r|];
      forall k | 0 <= k < i ensures ws(s[k]) {
        if k > 0 { assert s[k] == s[1..][k - 1]; }
      }
      forall k | i + |r| <= k < |s| ensures ws(s[k]) {
        assert s[k] == s[1..][k - 1];
      }
    } else if |s| > 0 && ws(s[|s| - 1]) {
      var t := s[..|s| - 1];
      i := TrimIsInfix(t, ws);
      assert s[i..i + |r|] == t[i..i + |r|];
      forall k | i + |r| <= k < |s| ensures ws(s[k]) {
        if k < |s| - 1 { assert s[k] == t[k]; }
      }
    } else {
      i := 0;
    }
  }

  /** A string without white space at either end is its own trim. */
  lemma TrimUnchanged(s: string, ws: char -> bool)
    requires s == [] || (!ws(s[0]) && !ws(s[|s| - 1]))
    ensures Trim(s, ws) == s
  {
  }

  /** `xs.findIndex(p)`: the index of the first element satisfying `p`, or -1. */
  function FindIndex<T>(xs: seq<T>, p: T -> bool): (r: int)
    ensures -1 <= r < |xs|
    ensures r == -1 <==> forall i :: 0 <= i < |xs| ==> !p(xs[i])
    ensures r >= 0 ==> p(xs[r]) && forall j :: 0 <= j < r ==> !p(xs[j])
  {
    if |xs| == 0 then -1
    else if p(xs[0]) then 0
    else
      var k := FindIndex(xs[1..], p);
      if k < 0 then -1 else k + 1
  }

  /** `parts.filter(Boolean)`: the non-empty strings of `parts`, in their order
      (FilterAppend). Exactly the non-empty strings are kept, each as often as it occurs. */
  function FilterNonEmpty(parts: seq<string>): (r: seq<string>)
    ensures forall i :: 0 <= i < |r| ==> r[i] != ""
    ensures multiset(r) == multiset(parts)["" := 0]
    ensures (forall i :: 0 <= i < |parts| ==> parts[i] == "") <==> r == []
  {
    if |parts| == 0 then []
    else
      assert parts == [parts[0]] + parts[1..];
      if parts[0] == "" then FilterNonEmpty(parts[1..])
      else [parts[0]] + FilterNonEmpty(parts[1..])
  }

  /** Filtering keeps order: filtering a concatenation filters each part in turn. */
  lemma {:induction false} FilterAppend(a: seq<string>, b: seq<string>)
    ensures FilterNonEmpty(a + b) == FilterNonEmpty(a) + FilterNonEmpty(b)
  {
    if |a| > 0 {
      assert (a + b)[1..] == a[1..] + b;
      FilterAppend(a[1..], b);
    } else {
      assert a + b == b;
    }
  }

  /** A join begins with its first piece. */
  lemma JoinStartsWithFirst(parts: seq<string>, sep: string)
    requires |parts| > 0
    ensures parts[0] <= Join(parts, sep)
  {
  }

  /** Joining two non-empty lists puts one separator between them. */
  lemma {:induction false} JoinAppend(a: seq<string>, b: seq<string>, sep: string)
    requires |a| > 0 && |b| > 0
    ensures Join(a + b, sep) == Join(a, sep) + sep + Join(b, sep)
  {
    if |a| == 1 {
      assert (a + b)[1..] == b;
    } else {
      assert (a + b)[1..] == a[1..] + b;
      JoinAppend(a[1..], b, sep);
    }
  }

  /** Split, then join with the same separator: the original string comes back. */
  lemma {:induction false} JoinSplit(s: string, sep: char)
    ensures Join(Split(s, sep), [sep]) == s
  {
    if |s| > 0 {
      var rest := Split(s[1..], sep);
      JoinSplit(s[1..], sep);
      if s[0] != sep {
        var r := Split(s, sep);
        assert r[1..] == rest[1..];
        if |rest| > 1 {
          assert Join(rest, [sep]) == rest[0] + [sep] + Join(rest[1..], [sep]);
        }
      }
    }
  }

  /** Splitting a separator-free string gives that string alone. */
  lemma {:induction false} SplitWithoutSeparator(w: string, sep: char)
    requires sep !in w
    ensures Split(w, sep) == [w]
  {
    if |w| > 0 {
      SplitWithoutSeparator(w[1..], sep);
      assert [w[0]] + w[1..] == w;
    }
  }

  /** A separator-free first piece followed by a separator splits off as one piece. */
  lemma {:induction false} SplitAfterPiece(w: string, t: string, sep: char)
    requires sep !in w
    ensures Split(w + [sep] + t, sep) == [w] + Split(t, sep)
  {
    var s := w + [sep] + t;
    if |w| == 0 {
      assert s[1..] == t;
    } else {
      assert s[1..] == w[1..] + [sep] + t;
      SplitAfterPiece(w[1..], t, sep);
      assert [w[0]] + w[1..] == w;
    }
  }

  /** Join, then split on the same separator: the pieces come back, provided
      there is at least one and none of them contains the separator. */
  lemma {:induction false} SplitJoin(parts: seq<string>, sep: char)
    requires |parts| > 0
    requires forall i :: 0 <= i < |parts| ==> sep !in parts[i]
    ensures Split(Join(parts, [sep]), sep) == parts
  {
    if |parts| == 1 {
      SplitWithoutSeparator(parts[0], sep);
    } else {
      SplitJoin(parts[1..], sep);
      SplitAfterPiece(parts[0], Join(parts[1..], [sep]), sep);
    }
  }

  /** The join of a contiguous run of pieces is a substring of the join of all of them. */
  lemma JoinSliceIsInfix(parts: seq<string>, s: int, e: int, sep: string)
    requires 0 <= s < e <= |parts|
    ensures exists i, j :: 0 <= i <= j <= |Join(parts, sep)|
                        && Join(parts, sep)[i..j] == Join(parts[s..e], sep)
  {
    var mid := Join(parts[s..e], sep);
    var pre := if s == 0 then "" else Join(parts[..s], sep) + sep;
    var post := if e == |parts| then "" else sep + Join(parts[e..], sep);
    var rest := parts[s..];
    assert Join(rest, sep) == mid + post by {
      if e < |parts| {
        assert rest == parts[s..e] + parts[e..];
        JoinAppend(parts[s..e], parts[e..], sep);
      } else {
        assert rest == parts[s..e];
      }
    }
    assert Join(parts, sep) == pre + Join(rest, sep) by {
      if s > 0 {
        assert parts == parts[..s] + rest;
        JoinAppend(parts[..s], rest, sep);
      } else {
        assert parts == rest;
      }
    }
    assert (pre + (mid + post))[|pre|..|pre| + |mid|] == mid;
  }
}
