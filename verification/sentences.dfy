/**
 The sentence split `re.split(r'(?<=[.!?])\s+', text)` that both the chunker
 and the key-point extractor start from. The pattern matches a run of
 whitespace only where the character before the run is a terminator; since
 the look-behind cannot see into a run, every match is a maximal whitespace
 run that starts right after `.`, `!` or `?`.
 */
module Sentences {
  import opened Text
  import opened Cleaning

  /** Position `i` starts a match: whitespace right after a terminator. */
  predicate IsBreak(s: string, i: int) {
    1 <= i < |s| && IsTerminator(s[i - 1]) && IsSpace(s[i])
  }

  /** The pattern matches nowhere in `s`. */
  predicate NoBreak(s: string) {
    forall i :: 0 <= i < |s| ==> !IsBreak(s, i)
  }

  /** The leftmost match at or after `from`, or `|s|` when there is none. */
  function FirstBreak(s: string, from: nat): (b: nat)
    requires from <= |s|
    ensures from <= b <= |s|
    ensures b < |s| ==> IsBreak(s, b)
    ensures forall j :: from <= j < b ==> !IsBreak(s, j)
    decreases |s| - from
  {
    if from == |s| then |s|
    else if IsBreak(s, from) then from
    else FirstBreak(s, from + 1)
  }

  /** `re.split(r'(?<=[.!?])\s+', s)`: the pieces between the matches, the
      matched whitespace dropped. Scanning resumes after the run, whose end is
      not whitespace, so the rest is split on its own. */
  function SplitSentences(s: string): (r: seq<string>)
    ensures SentenceList(r)
    ensures |r[0]| <= |s| && r[0] == s[..|r[0]|]
    decreases |s|
  {
    var b := FirstBreak(s, 0);
    if b == |s| then
      assert NoBreak(s);
      [s]
    else
      var rest := s[b..];
      var t := rest[Span(rest, IsSpace)..];
      BreakPiece(s, b);
      var rec := SplitSentences(t);
      assert rec[0] == [] || !IsSpace(rec[0][0]) by {
        if rec[0] != [] {
          assert rec[0][0] == t[0] == rest[Span(rest, IsSpace)];
        }
      }
      SentenceCons(s[..b], rec);
      [s[..b]] + rec
  }

  /** The text before the first split point is a finished sentence. */
  lemma BreakPiece(s: string, b: nat)
    requires b == FirstBreak(s, 0) && b < |s|
    ensures NoBreak(s[..b]) && s[..b] != [] && IsTerminator(s[..b][b - 1])
  {
    forall j | 0 <= j < b
      ensures !IsBreak(s[..b], j)
    {
      assert !IsBreak(s, j);
    }
  }

  /** The shapes `SplitSentences` produces: every piece free of split points,
      all but the last ending in a terminator, all but the first starting
      with a non-whitespace character. */
  predicate SentenceList(parts: seq<string>) {
    && parts != []
    && (forall i :: 0 <= i < |parts| ==> NoBreak(parts[i]))
    && (forall i :: 0 <= i < |parts| - 1 ==> parts[i] != [] && IsTerminator(parts[i][|parts[i]| - 1]))
    && (forall i :: 1 <= i < |parts| ==> parts[i] == [] || !IsSpace(parts[i][0]))
  }

  /** A finished sentence in front of a sentence list whose first piece does
      not start with whitespace. */
  lemma SentenceCons(p: string, rec: seq<string>)
    requires NoBreak(p) && p != [] && IsTerminator(p[|p| - 1])
    requires SentenceList(rec) && (rec[0] == [] || !IsSpace(rec[0][0]))
    ensures SentenceList([p] + rec)
  {
    var r := [p] + rec;
    assert forall i :: 1 <= i < |r| ==> r[i] == rec[i - 1];
  }

  /** Text without a split point is one sentence. */
  lemma SplitNoBreak(s: string)
    requires NoBreak(s)
    ensures SplitSentences(s) == [s]
  {
    assert !IsBreak(s, FirstBreak(s, 0));
  }

  /** On single-spaced text every match is one space, so joining the sentences
      with a space gives the text back. */
  lemma {:induction false} JoinSplitSentences(s: string)
    requires SingleSpaced(s)
    ensures Join(SplitSentences(s), " ") == s
    decreases |s|
  {
    var b := FirstBreak(s, 0);
    if b < |s| {
      var p, t := s[..b], s[b + 1..];
      assert s == p + " " + t by {
        assert s[b] == ' ';
      }
      assert t == [] || !IsSpace(t[0]) by {
        if t != [] {
          assert t[0] == s[b + 1];
        }
      }
      assert SingleSpaced(t) by {
        assert forall i :: 0 <= i < |t| ==> t[i] == s[b + 1 + i];
      }
      assert NoBreak(p) by {
        forall i | 0 <= i < |p|
          ensures !IsBreak(p, i)
        {
          assert !IsBreak(s, i);
        }
      }
      SplitUnfold(s, p, t);
      JoinSplitSentences(t);
      JoinCons(p, SplitSentences(t), " ");
    }
  }

  /** One step of the split: a sentence, the single space that ends it, and
      the rest, which starts with something other than whitespace. */
  lemma SplitUnfold(s: string, p: string, t: string)
    requires s == p + " " + t
    requires p != [] && IsTerminator(p[|p| - 1]) && NoBreak(p)
    requires t == [] || !IsSpace(t[0])
    ensures SplitSentences(s) == [p] + SplitSentences(t)
  {
    assert forall i :: 0 <= i < |p| ==> s[i] == p[i];
    assert forall i :: 0 <= i < |p| ==> !IsBreak(s, i) by {
      forall i | 0 <= i < |p|
        ensures !IsBreak(s, i)
      {
        assert !IsBreak(p, i);
      }
    }
    assert IsBreak(s, |p|);
    var b := FirstBreak(s, 0);
    assert b == |p|;
    var rest := s[b..];
    assert rest == " " + t;
    assert Span(rest, IsSpace) == 1;
    assert rest[1..] == t;
    assert s[..b] == p;
  }

  /** The first character of a join is that of its first part. */
  lemma JoinHead(parts: seq<string>, sep: string)
    requires parts != [] && parts[0] != []
    ensures Join(parts, sep) != [] && Join(parts, sep)[0] == parts[0][0]
  {
  }

  /** Splitting sentences joined by a space recovers them: the inverse of
      `JoinSplitSentences`. */
  lemma {:induction false} SplitJoinSentences(parts: seq<string>)
    requires SentenceList(parts)
    ensures SplitSentences(Join(parts, " ")) == parts
    decreases |parts|
  {
    if |parts| == 1 {
      SplitNoBreak(parts[0]);
    } else {
      var p, tail := parts[0], parts[1..];
      var j := Join(tail, " ");
      assert j == [] || !IsSpace(j[0]) by {
        if tail[0] != [] {
          JoinHead(tail, " ");
        } else {
          assert |tail| == 1;
        }
      }
      assert SentenceList(tail) by {
        assert forall i :: 0 <= i < |tail| ==> tail[i] == parts[i + 1];
      }
      assert parts == [p] + tail;
      JoinCons(p, tail, " ");
      SplitUnfold(Join(parts, " "), p, j);
      SplitJoinSentences(tail);
    }
  }

  /** A character absent from the text is absent from every sentence. */
  lemma {:induction false} SplitAvoids(s: string, c: char)
    requires c !in s
    ensures forall i :: 0 <= i < |SplitSentences(s)| ==> c !in SplitSentences(s)[i]
    decreases |s|
  {
    var b := FirstBreak(s, 0);
    if b < |s| {
      var rest := s[b..];
      var k := Span(rest, IsSpace);
      var t := rest[k..];
      assert c !in s[..b] && c !in t by {
        TakeDrop(s, b);
        TakeDrop(rest, k);
        AbsentFromMiddle([], s[..b], rest, c);
        AbsentFromMiddle(rest[..k], t, [], c);
        assert [] + s[..b] + rest == s;
        assert rest[..k] + t + [] == rest;
      }
      SplitAvoids(t, c);
      ConsIndex(s[..b], SplitSentences(t));
    }
  }

  /** The whitespace runs the split drops, in text order. */
  function SplitGaps(s: string): seq<string>
    decreases |s|
  {
    var b := FirstBreak(s, 0);
    if b == |s| then []
    else
      var rest := s[b..];
      var k := Span(rest, IsSpace);
      [rest[..k]] + SplitGaps(rest[k..])
  }

  /** The pieces with the gaps between them put back. */
  function Weave(parts: seq<string>, gaps: seq<string>): string
    requires |parts| == |gaps| + 1
    decreases |gaps|
  {
    if gaps == [] then parts[0] else parts[0] + gaps[0] + Weave(parts[1..], gaps[1..])
  }

  lemma WeaveCons(p: string, ps: seq<string>, g: string, gs: seq<string>)
    requires |ps| == |gs| + 1
    ensures Weave([p] + ps, [g] + gs) == p + g + Weave(ps, gs)
  {
    assert ([p] + ps)[1..] == ps;
    assert ([g] + gs)[1..] == gs;
  }

  /** Nothing is lost but the matched whitespace: the text is its sentences
      with a nonempty whitespace run put back between each two neighbours. */
  lemma {:induction false} SplitWeave(s: string)
    ensures |SplitGaps(s)| + 1 == |SplitSentences(s)|
    ensures forall i :: 0 <= i < |SplitGaps(s)| ==> SplitGaps(s)[i] != [] && AllSpace(SplitGaps(s)[i])
    ensures Weave(SplitSentences(s), SplitGaps(s)) == s
    decreases |s|
  {
    var b := FirstBreak(s, 0);
    if b == |s| {
      assert SplitSentences(s) == [s];
    } else {
      var rest := s[b..];
      var t := rest[Span(rest, IsSpace)..];
      SplitWeave(t);
      SplitStep(s, b);
      GapsStep(s, b);
      WeaveStep(s, b, SplitSentences(t), SplitGaps(t));
    }
  }

  /** One step of `SplitGaps`: the first matched run, then the runs of the rest. */
  lemma GapsStep(s: string, b: nat)
    requires b == FirstBreak(s, 0) && b < |s|
    ensures var rest := s[b..]; var k := Span(rest, IsSpace);
      && SplitGaps(s) == [rest[..k]] + SplitGaps(rest[k..])
      && rest[..k] != [] && AllSpace(rest[..k])
  {
    LeadingSpace(s[b..], Span(s[b..], IsSpace));
  }

  /** Putting the first sentence and the first run back in front of the rest. */
  lemma WeaveStep(s: string, b: nat, ps: seq<string>, gs: seq<string>)
    requires b < |s|
    requires |gs| + 1 == |ps|
    requires forall i :: 0 <= i < |gs| ==> gs[i] != [] && AllSpace(gs[i])
    requires var rest := s[b..]; var k := Span(rest, IsSpace);
      rest[..k] != [] && AllSpace(rest[..k]) && Weave(ps, gs) == rest[k..]
    ensures var rest := s[b..]; var k := Span(rest, IsSpace); var g := rest[..k];
      && (forall i :: 0 <= i < |[g] + gs| ==> ([g] + gs)[i] != [] && AllSpace(([g] + gs)[i]))
      && Weave([s[..b]] + ps, [g] + gs) == s
  {
    var rest := s[b..];
    var k := Span(rest, IsSpace);
    var p, g, t := s[..b], rest[..k], rest[k..];
    ConsIndex(g, gs);
    WeaveCons(p, ps, g, gs);
    TakeDrop(s, b);
    TakeDrop(rest, k);
    ConcatAssoc(p, g, t);
  }

  /** One step of the split: the text up to the first match, then the split
      of what follows the matched run. */
  lemma SplitStep(s: string, b: nat)
    requires b == FirstBreak(s, 0) && b < |s|
    ensures SplitSentences(s) == [s[..b]] + SplitSentences(s[b..][Span(s[b..], IsSpace)..])
  {
  }

  /** The text ends in whitespace whose nearest non-whitespace character is
      a terminator. */
  predicate EndsAfterTerminator(s: string) {
    var k := SpanEnd(s, IsSpace);
    1 <= k < |s| && IsTerminator(s[|s| - 1 - k])
  }

  /** The last sentence is empty exactly when the text is empty or ends in
      whitespace whose nearest non-whitespace character is a terminator. */
  lemma {:induction false} SplitLastEmpty(s: string)
    ensures LastEmpty(SplitSentences(s)) <==> s == [] || EndsAfterTerminator(s)
    decreases |s|
  {
    var b := FirstBreak(s, 0);
    if b == |s| {
      assert SplitSentences(s) == [s];
      NoBreakNoEnd(s);
    } else {
      var rest := s[b..];
      var t := rest[Span(rest, IsSpace)..];
      SplitLastStep(s, b);
      EndsAfterBreak(s, b);
      SplitLastEmpty(t);
    }
  }

  predicate LastEmpty(r: seq<string>) {
    r != [] && r[|r| - 1] == []
  }

  /** Past the first match, the last sentence is that of the rest. */
  lemma SplitLastStep(s: string, b: nat)
    requires b == FirstBreak(s, 0) && b < |s|
    ensures LastEmpty(SplitSentences(s)) <==> LastEmpty(SplitSentences(s[b..][Span(s[b..], IsSpace)..]))
  {
    SplitStep(s, b);
  }

  /** Past the first match, the text ends after a terminator exactly when
      the rest does, or the match runs to the end. */
  lemma EndsAfterBreak(s: string, b: nat)
    requires IsBreak(s, b)
    ensures var t := s[b..][Span(s[b..], IsSpace)..];
      EndsAfterTerminator(s) <==> t == [] || EndsAfterTerminator(t)
  {
    var m := Span(s[b..], IsSpace);
    if s[b..][m..] == [] {
      SpanEndAfterBreak(s, b);
    } else {
      EndsAfterNonSpace(s, b, m);
    }
  }

  /** When something follows the run matched at `b`, trailing whitespace after
      a terminator is a property of that remainder alone. */
  lemma EndsAfterNonSpace(s: string, b: nat, m: nat)
    requires b <= |s| && m == Span(s[b..], IsSpace) && s[b..][m..] != []
    ensures EndsAfterTerminator(s) <==> EndsAfterTerminator(s[b..][m..])
  {
    DropDrop(s, b, m);
    assert s[b..][m] == s[b + m];
    SpanEndSuffix(s, b + m);
  }

  /** Text without a split point does not end in whitespace after a terminator. */
  lemma NoBreakNoEnd(s: string)
    requires NoBreak(s)
    ensures !EndsAfterTerminator(s)
  {
    var k := SpanEnd(s, IsSpace);
    if 1 <= k < |s| {
      assert !IsBreak(s, |s| - k);
    }
  }

  /** Whitespace from a break to the end: the trailing whitespace is exactly
      that run, and a terminator stands before it. */
  lemma SpanEndAfterBreak(s: string, b: nat)
    requires IsBreak(s, b) && s[b..][Span(s[b..], IsSpace)..] == []
    ensures EndsAfterTerminator(s)
  {
    var rest := s[b..];
    assert Span(rest, IsSpace) == |rest|;
    assert forall i :: b <= i < |s| ==> IsSpace(s[i]) by {
      assert forall i :: b <= i < |s| ==> s[i] == rest[i - b];
    }
    SpanEndUnique(s, |s| - b);
  }

  /** The trailing whitespace of a text is that of any suffix that starts
      with a non-whitespace character. */
  lemma SpanEndSuffix(s: string, j: nat)
    requires j < |s| && !IsSpace(s[j])
    ensures EndsAfterTerminator(s) <==> EndsAfterTerminator(s[j..])
  {
    var t := s[j..];
    var n := SpanEnd(t, IsSpace);
    assert !IsSpace(t[0]) by {
      assert t[0] == s[j];
    }
    assert n < |t|;
    assert forall i :: |s| - n <= i < |s| ==> IsSpace(s[i]) by {
      assert forall i :: |s| - n <= i < |s| ==> s[i] == t[i - j];
    }
    assert s[|s| - 1 - n] == t[|t| - 1 - n];
    SpanEndUnique(s, n);
  }

  /** `SpanEnd` is the one length whose suffix is all whitespace with a
      non-whitespace character (or nothing) before it. */
  lemma SpanEndUnique(s: string, n: nat)
    requires n <= |s|
    requires forall i :: |s| - n <= i < |s| ==> IsSpace(s[i])
    requires n < |s| ==> !IsSpace(s[|s| - 1 - n])
    ensures SpanEnd(s, IsSpace) == n
  {
    var m := SpanEnd(s, IsSpace);
    assert m < |s| ==> !IsSpace(s[|s| - 1 - m]);
  }

  /** Cleaned text gives a final empty sentence exactly when it is empty or
      ends in a terminator and the space written after it; a final `,`
      gives none, since `,` does not end a sentence. */
  lemma SplitTrailingSpace(x: string)
    ensures var c := CleanText(x);
      LastEmpty(SplitSentences(c)) <==> c == [] || (|c| >= 2 && IsTerminator(c[|c| - 2]) && c[|c| - 1] == ' ')
  {
    var c := CleanText(x);
    SplitLastEmpty(c);
    SpacedEndsAfterTerminator(c);
  }

  /** In single-spaced text the whitespace after a final terminator is one space. */
  lemma SpacedEndsAfterTerminator(c: string)
    requires SingleSpaced(c)
    ensures EndsAfterTerminator(c) <==> |c| >= 2 && IsTerminator(c[|c| - 2]) && c[|c| - 1] == ' '
  {
    if c != [] && IsSpace(c[|c| - 1]) {
      if |c| >= 2 {
        assert !IsSpace(c[|c| - 2]);
        SpanEndUnique(c, 1);
      } else {
        SpanEndUnique(c, 1);
      }
    } else {
      SpanEndUnique(c, 0);
    }
  }
}
