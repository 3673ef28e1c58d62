/** The optional value used wherever the summariser can fail. */
module Options {
  datatype Option<+T> = None | Some(value: T)
}

/**
 Character classes and the string primitives of Python that the summariser
 leans on: `\s` / `str.isspace`, `str.split()`, `str.strip()`, `str.lower()`,
 `sep.join(parts)`, `s.split(c)` and the `in` substring test. Only ASCII is
 modelled.
 */
module Text {

  /** Python's `str.isspace` on ASCII: tab, line feed, vertical tab, form feed,
      carriage return, the four separators 0x1C..0x1F and the space. The regex
      class `\s`, `str.split()` and `str.strip()` all use this class. */
  predicate IsSpace(c: char) {
    var n := c as int;
    (9 <= n <= 13) || (28 <= n <= 32)
  }

  predicate NonSpace(c: char) {
    !IsSpace(c)
  }

  /** The sentence terminators of the splitting look-behind `(?<=[.!?])`. */
  predicate IsTerminator(c: char) {
    c == '.' || c == '!' || c == '?'
  }

  /** The class `[.,!?]` whose spacing the cleaner normalises. */
  predicate IsPunct(c: char) {
    IsTerminator(c) || c == ','
  }

  predicate AllSpace(s: string) {
    forall i :: 0 <= i < |s| ==> IsSpace(s[i])
  }

  /** Neither starts nor ends with whitespace. */
  predicate Unpadded(s: string) {
    s == [] || (!IsSpace(s[0]) && !IsSpace(s[|s| - 1]))
  }

  predicate NoSpace(s: string) {
    forall i :: 0 <= i < |s| ==> !IsSpace(s[i])
  }

  /** Length of the longest prefix of `s` whose characters all satisfy `p`. */
  function Span(s: string, p: char -> bool): (n: nat)
    ensures n <= |s|
    ensures forall i :: 0 <= i < n ==> p(s[i])
    ensures n < |s| ==> !p(s[n])
  {
    if s == [] || !p(s[0]) then 0 else 1 + Span(s[1..], p)
  }

  /** Length of the longest suffix of `s` whose characters all satisfy `p`. */
  function SpanEnd(s: string, p: char -> bool): (n: nat)
    ensures n <= |s|
    ensures forall i :: |s| - n <= i < |s| ==> p(s[i])
    ensures n < |s| ==> !p(s[|s| - 1 - n])
  {
    if s == [] || !p(s[|s| - 1]) then 0 else 1 + SpanEnd(s[..|s| - 1], p)
  }

  /** A span over a concatenation stops inside the first part unless that part is all `p`. */
  lemma {:induction false} SpanAppend(x: string, y: string, p: char -> bool)
    ensures Span(x + y, p) == if Span(x, p) == |x| then |x| + Span(y, p) else Span(x, p)
  {
    if x == [] {
      assert x + y == y;
    } else if p(x[0]) {
      assert (x + y)[1..] == x[1..] + y;
      SpanAppend(x[1..], y, p);
    }
  }

  /** Python's argument-free `str.strip()`. */
  function Strip(s: string): (r: string)
    ensures Unpadded(r)
    ensures exists a, b :: s == a + r + b && AllSpace(a) && AllSpace(b)
  {
    var i := Span(s, IsSpace);
    var t := s[i..];
    var j := |t| - SpanEnd(t, IsSpace);
    StripParts(s, i, t, j);
    t[..j]
  }

  /** The three parts `Strip` cuts a string into. */
  lemma StripParts(s: string, i: nat, t: string, j: nat)
    requires i == Span(s, IsSpace) && t == s[i..] && j == |t| - SpanEnd(t, IsSpace)
    ensures Unpadded(t[..j]) && AllSpace(s[..i]) && AllSpace(t[j..])
    ensures s == s[..i] + t[..j] + t[j..]
  {
    LeadingSpace(s, i);
    TrailingSpace(t, j);
    StrippedCore(s, i, t, j);
    TakeDrop(t, j);
    TakeDrop(s, i);
    ConcatAssoc(s[..i], t[..j], t[j..]);
  }

  lemma LeadingSpace(s: string, i: nat)
    requires i == Span(s, IsSpace)
    ensures AllSpace(s[..i])
  {
    assert forall k :: 0 <= k < i ==> s[..i][k] == s[k];
  }

  lemma TrailingSpace(t: string, j: nat)
    requires j == |t| - SpanEnd(t, IsSpace)
    ensures AllSpace(t[j..])
  {
    assert forall k :: 0 <= k < |t| - j ==> t[j..][k] == t[j + k];
  }

  lemma StrippedCore(s: string, i: nat, t: string, j: nat)
    requires i == Span(s, IsSpace) && t == s[i..] && j == |t| - SpanEnd(t, IsSpace)
    ensures Unpadded(t[..j])
  {
    var r := t[..j];
    if r != [] {
      assert r[0] == s[i];
      assert r[|r| - 1] == t[j - 1];
    }
  }

  /** Stripping is the identity on a string that neither starts nor ends with whitespace. */
  lemma StripUnpadded(s: string)
    requires Unpadded(s)
    ensures Strip(s) == s
  {
    assert s[0..] == s;
  }

  /** Stripping adds no character. */
  lemma StripAvoids(s: string, c: char)
    requires c !in s
    ensures c !in Strip(s)
  {
    var a, b :| s == a + Strip(s) + b && AllSpace(a) && AllSpace(b);
    AbsentFromMiddle(a, Strip(s), b, c);
  }

  /** What a concatenation lacks, its middle part lacks. */
  lemma AbsentFromMiddle<T>(a: seq<T>, m: seq<T>, b: seq<T>, x: T)
    requires x !in a + m + b
    ensures x !in m
  {
    assert forall k :: 0 <= k < |m| ==> m[k] == (a + m + b)[|a| + k];
  }

  /** The inverse view of `Strip`: whatever padding of whitespace surrounds an
      unpadded string, stripping recovers exactly that string. */
  lemma StripRecovers(a: string, r: string, b: string)
    requires AllSpace(a) && AllSpace(b)
    requires Unpadded(r)
    ensures Strip(a + r + b) == r
  {
    var s := a + r + b;
    if r == [] {
      assert s == a + b;
      SpanAppend(a, b, IsSpace);
      var t := s[Span(s, IsSpace)..];
      assert t == [];
    } else {
      assert s == a + (r + b);
      SpanAppend(a, r + b, IsSpace);
      SpanAppend(r, b, IsSpace);
      assert Span(s, IsSpace) == |a|;
      var t := s[|a|..];
      assert t == r + b;
      var k := SpanEnd(t, IsSpace);
      assert k == |b| by {
        SpanEndAppend(r, b);
      }
      assert t[..|t| - k] == r;
    }
  }

  lemma {:induction false} SpanEndAppend(r: string, b: string)
    requires AllSpace(b)
    requires r != [] && !IsSpace(r[|r| - 1])
    ensures SpanEnd(r + b, IsSpace) == |b|
  {
    if b != [] {
      var t := r + b;
      assert t[..|t| - 1] == r + b[..|b| - 1];
      SpanEndAppend(r, b[..|b| - 1]);
    } else {
      assert r + b == r;
    }
  }

  /** Python's argument-free `str.split()`: the maximal runs of non-whitespace. */
  function Words(s: string): (r: seq<string>)
    ensures forall i :: 0 <= i < |r| ==> r[i] != [] && NoSpace(r[i])
    decreases |s|
  {
    var t := s[Span(s, IsSpace)..];
    if t == [] then []
    else
      var n := Span(t, NonSpace);
      WordPiece(s, t, n);
      var rec := Words(t[n..]);
      ConsIndex(t[..n], rec);
      [t[..n]] + rec
  }

  /** The word `str.split()` takes first is nonempty and holds no whitespace. */
  lemma WordPiece(s: string, t: string, n: nat)
    requires t == s[Span(s, IsSpace)..] && t != [] && n == Span(t, NonSpace)
    ensures 1 <= n && NoSpace(t[..n])
  {
    assert t[0] == s[Span(s, IsSpace)];
    assert forall k :: 0 <= k < n ==> t[..n][k] == t[k];
  }

  /** `len(s.split())`. */
  function WordCount(s: string): nat {
    |Words(s)|
  }

  /** Leading whitespace does not change the words of a string. */
  lemma WordsAfterSpace(a: string, y: string)
    requires AllSpace(a)
    ensures Words(a + y) == Words(y)
  {
    SpanAppend(a, y, IsSpace);
    assert (a + y)[Span(a + y, IsSpace)..] == y[Span(y, IsSpace)..];
  }

  /** One step of `str.split()`: skip leading whitespace, take one word, continue
      after it. */
  lemma WordsStep(a: string, w: string, rest: string)
    requires AllSpace(a) && w != [] && NoSpace(w)
    requires rest == [] || IsSpace(rest[0])
    ensures Words(a + w + rest) == [w] + Words(rest)
  {
    var s := a + w + rest;
    assert s == a + (w + rest);
    SpanAppend(a, w + rest, IsSpace);
    SpanAppend(w, rest, IsSpace);
    assert Span(s, IsSpace) == |a|;
    var t := s[|a|..];
    assert t == w + rest;
    SpanAppend(w, rest, NonSpace);
    assert Span(w, NonSpace) == |w|;
    assert Span(t, NonSpace) == |w|;
    assert t[..|w|] == w;
    assert t[|w|..] == rest;
  }

  /** Splitting into words distributes over a concatenation whose second part
      starts with whitespace. */
  lemma {:induction false} WordsAppend(x: string, y: string)
    requires y != [] && IsSpace(y[0])
    ensures Words(x + y) == Words(x) + Words(y)
    decreases |x|
  {
    var i := Span(x, IsSpace);
    LeadingSpace(x, i);
    if i == |x| {
      assert Words(x) == [] by {
        assert x[i..] == [];
      }
      assert x[..i] == x;
      WordsAfterSpace(x, y);
    } else {
      var t := x[i..];
      var n := Span(t, NonSpace);
      WordPiece(x, t, n);
      var a, w, rest := x[..i], t[..n], t[n..];
      assert x == a + w + rest by {
        TakeDrop(t, n);
        TakeDrop(x, i);
        ConcatAssoc(a, w, rest);
      }
      WordsAppend(rest, y);
      WordsCons(x, y, a, w, rest);
    }
  }

  lemma WordsCons(x: string, y: string, a: string, w: string, rest: string)
    requires y != [] && IsSpace(y[0])
    requires x == a + w + rest
    requires AllSpace(a) && w != [] && NoSpace(w)
    requires rest == [] || IsSpace(rest[0])
    requires Words(rest + y) == Words(rest) + Words(y)
    ensures Words(x + y) == Words(x) + Words(y)
  {
    WordsStep(a, w, rest);
    assert x + y == a + w + (rest + y) by {
      ConcatAssoc(a + w, rest, y);
    }
    WordsStep(a, w, rest + y);
    ConcatAssoc([w], Words(rest), Words(y));
  }

  /** A sequence is its prefix followed by the rest; stated on its own so that
      the equality is proved without the facts of a larger context. */
  lemma TakeDrop<T>(s: seq<T>, i: nat)
    requires i <= |s|
    ensures s[..i] + s[i..] == s
  {
  }

  /** Indexing past the head of `[x] + xs` indexes `xs`. */
  lemma ConsIndex<T>(x: T, xs: seq<T>)
    ensures forall i :: 1 <= i < |[x] + xs| ==> ([x] + xs)[i] == xs[i - 1]
  {
  }

  /** The suffix from `k` is the element at `k` followed by the suffix after it. */
  lemma DropCons<T>(s: seq<T>, k: nat)
    requires k < |s|
    ensures s[k..] == [s[k]] + s[k + 1..]
  {
  }

  /** Dropping twice is dropping the sum. */
  lemma DropDrop<T>(s: seq<T>, i: nat, j: nat)
    requires i + j <= |s|
    ensures s[i..][j..] == s[i + j..]
  {
  }

  /** Taking `1 + k` is the head and `k` of the tail; dropping likewise. */
  lemma PrefixCons<T>(xs: seq<T>, k: nat)
    requires k < |xs|
    ensures xs[..1 + k] == [xs[0]] + xs[1..][..k]
    ensures xs[1..][k..] == xs[1 + k..]
  {
    assert xs[..1 + k] == [xs[0]] + xs[1..][..k];
  }

  /** Indexing into a concatenation. */
  lemma AppendIndex<T>(a: seq<T>, b: seq<T>)
    ensures forall i :: 0 <= i < |a| ==> (a + b)[i] == a[i]
    ensures forall i :: |a| <= i < |a + b| ==> (a + b)[i] == b[i - |a|]
  {
  }

  /** A sequence of two or more is its first two elements and the rest. */
  lemma ConsTwo<T>(s: seq<T>)
    requires |s| >= 2
    ensures s == [s[0], s[1]] + s[2..]
  {
  }

  /** Concatenation is associative. */
  lemma ConcatAssoc<T>(p: seq<T>, q: seq<T>, r: seq<T>)
    ensures p + q + r == p + (q + r)
  {
  }

  /** Python's `sep.join(parts)`. */
  function Join(parts: seq<string>, sep: string): string {
    if |parts| == 0 then ""
    else if |parts| == 1 then parts[0]
    else parts[0] + sep + Join(parts[1..], sep)
  }

  /** `Join` on a list with a head. */
  lemma JoinCons(x: string, ys: seq<string>, sep: string)
    requires ys != []
    ensures Join([x] + ys, sep) == x + sep + Join(ys, sep)
  {
    assert ([x] + ys)[1..] == ys;
  }

  lemma {:induction false} JoinAppend(xs: seq<string>, ys: seq<string>, sep: string)
    requires xs != [] && ys != []
    ensures Join(xs + ys, sep) == Join(xs, sep) + sep + Join(ys, sep)
  {
    if |xs| == 1 {
      assert (xs + ys)[1..] == ys;
    } else {
      assert (xs + ys)[1..] == xs[1..] + ys;
      JoinAppend(xs[1..], ys, sep);
    }
  }

  /** A character in neither the parts nor the separator is not in their join. */
  lemma {:induction false} JoinAvoids(parts: seq<string>, sep: string, c: char)
    requires c !in sep
    requires forall i :: 0 <= i < |parts| ==> c !in parts[i]
    ensures c !in Join(parts, sep)
  {
    if |parts| > 1 {
      JoinAvoids(parts[1..], sep, c);
    }
  }

  /** The number of words of parts joined by a space is the sum of their word counts. */
  lemma {:induction false} WordCountJoin(parts: seq<string>)
    ensures WordCount(Join(parts, " ")) == SumWordCounts(parts)
  {
    if |parts| == 0 {
      assert Words("") == [];
    } else if |parts| > 1 {
      var rest := Join(parts[1..], " ");
      assert parts[0] + " " + rest == parts[0] + (" " + rest);
      WordsAppend(parts[0], " " + rest);
      assert " " + rest == " " + rest;
      WordsAfterSpace(" ", rest);
      WordCountJoin(parts[1..]);
    }
  }

  function SumWordCounts(parts: seq<string>): nat {
    if parts == [] then 0 else WordCount(parts[0]) + SumWordCounts(parts[1..])
  }

  lemma {:induction false} SumWordCountsAppend(xs: seq<string>, ys: seq<string>)
    ensures SumWordCounts(xs + ys) == SumWordCounts(xs) + SumWordCounts(ys)
  {
    if xs == [] {
      assert xs + ys == ys;
    } else {
      assert (xs + ys)[1..] == xs[1..] + ys;
      SumWordCountsAppend(xs[1..], ys);
    }
  }

  /** Index of the first `c` in `s`, or `|s|` when there is none. */
  function Find(s: string, c: char): (n: nat)
    ensures n <= |s|
    ensures forall i :: 0 <= i < n ==> s[i] != c
    ensures n < |s| ==> s[n] == c
  {
    if s == [] || s[0] == c then 0 else 1 + Find(s[1..], c)
  }

  /** The pieces of `s` between occurrences of `c`; the report parsers cut a
      report into its lines with it. */
  function SplitOn(s: string, c: char): (r: seq<string>)
    ensures |r| >= 1
    ensures forall i :: 0 <= i < |r| ==> c !in r[i]
    decreases |s|
  {
    var n := Find(s, c);
    if n == |s| then [s] else [s[..n]] + SplitOn(s[n + 1..], c)
  }

  /** Splitting then joining on the same separator gives back the string. */
  lemma {:induction false} JoinSplitOn(s: string, c: char)
    ensures Join(SplitOn(s, c), [c]) == s
    decreases |s|
  {
    var n := Find(s, c);
    if n < |s| {
      var rest := SplitOn(s[n + 1..], c);
      assert SplitOn(s, c) == [s[..n]] + rest;
      assert Join(SplitOn(s, c), [c]) == s[..n] + [c] + Join(rest, [c]) by {
        assert ([s[..n]] + rest)[1..] == rest;
      }
      JoinSplitOn(s[n + 1..], c);
      assert s == s[..n] + [c] + s[n + 1..];
    }
  }

  /** Joining separator-free parts then splitting gives back the parts. */
  lemma {:induction false} SplitOnJoin(parts: seq<string>, c: char)
    requires parts != []
    requires forall i :: 0 <= i < |parts| ==> c !in parts[i]
    ensures SplitOn(Join(parts, [c]), c) == parts
  {
    var p := parts[0];
    FindAbsent(p, c);
    if |parts| > 1 {
      var s := Join(parts, [c]);
      var rest := Join(parts[1..], [c]);
      assert s == p + ([c] + rest);
      assert Find(s, c) == |p| by {
        FindAppend(p, [c] + rest, c);
      }
      assert s[..|p|] == p;
      assert s[|p| + 1..] == rest;
      SplitOnJoin(parts[1..], c);
    }
  }

  lemma FindAbsent(p: string, c: char)
    requires c !in p
    ensures Find(p, c) == |p|
  {
  }

  lemma {:induction false} FindAppend(x: string, y: string, c: char)
    requires c !in x
    ensures Find(x + y, c) == |x| + Find(y, c)
  {
    if x == [] {
      assert x + y == y;
    } else {
      assert (x + y)[1..] == x[1..] + y;
      FindAppend(x[1..], y, c);
    }
  }

  /** ASCII case folding, the modelled part of `str.lower()`. */
  function LowerChar(c: char): char {
    if 'A' <= c <= 'Z' then (c as int + 32) as char else c
  }

  /** An ASCII capital letter. */
  predicate IsUpperAscii(c: char) {
    'A' <= c <= 'Z'
  }

  /** Capitals become the small letter at the same place in the alphabet;
      every other character stays as it is. */
  function Lower(s: string): (r: string)
    ensures |r| == |s|
    ensures forall i :: 0 <= i < |s| ==> !IsUpperAscii(r[i])
    ensures forall i :: 0 <= i < |s| && !IsUpperAscii(s[i]) ==> r[i] == s[i]
    ensures forall i :: 0 <= i < |s| && IsUpperAscii(s[i]) ==>
      'a' <= r[i] <= 'z' && r[i] as int - 'a' as int == s[i] as int - 'A' as int
  {
    seq(|s|, i requires 0 <= i < |s| => LowerChar(s[i]))
  }

  /** `k` occurs in `s` starting at index `i`. */
  predicate OccursAt(s: string, k: string, i: int) {
    0 <= i && i + |k| <= |s| && s[i..i + |k|] == k
  }

  /** Python's substring test `k in s`, scanning left to right. */
  predicate Contains(s: string, k: string)
    decreases |s|
  {
    if |s| < |k| then false
    else s[..|k|] == k || (s != [] && Contains(s[1..], k))
  }

  /** The scan agrees with the positional definition of an occurrence, both ways. */
  lemma {:induction false} ContainsIffOccurs(s: string, k: string)
    ensures Contains(s, k) <==> exists i :: OccursAt(s, k, i)
    decreases |s|
  {
    if |s| < |k| {
    } else if s[..|k|] == k {
      assert OccursAt(s, k, 0);
    } else if s == [] {
    } else {
      ContainsIffOccurs(s[1..], k);
      if exists i :: OccursAt(s[1..], k, i) {
        var i :| OccursAt(s[1..], k, i);
        assert s[i + 1..i + 1 + |k|] == s[1..][i..i + |k|];
        assert OccursAt(s, k, i + 1);
      }
      if exists i :: OccursAt(s, k, i) {
        var i :| OccursAt(s, k, i);
        assert i != 0;
        assert s[1..][i - 1..i - 1 + |k|] == s[i..i + |k|];
        assert OccursAt(s[1..], k, i - 1);
      }
    }
  }
}
