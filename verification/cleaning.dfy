/**
 The transcript cleaner `clean_text` (summarize_text.py:8-16): three regular
 expression rewrites applied in turn.

   1. `re.sub(r'\s+', ' ', text).strip()`   every whitespace run becomes one space,
                                            then the ends are trimmed;
   2. `re.sub(r'\.+', '.', text)`           every run of periods becomes one period;
   3. `re.sub(r'\s*([.,!?])\s*', r'\1 ', text)`
                                            a mark of `.,!?` loses the whitespace
                                            around it and gains one space after it.

 Only periods are collapsed: `"!!"` becomes `"! ! "`, and any text that ends
 in one of the four marks keeps a trailing space.
 */
module Cleaning {
  import opened Text
  import opened Seqs

  /** `re.sub(C + '+', rep, s)` for a character class `C` given as `inRun`:
      every maximal run of characters of the class becomes the single `rep`. */
  function CollapseRuns(s: string, inRun: char -> bool, rep: char): (r: string)
    ensures |r| <= |s|
    ensures r == [] <==> s == []
    ensures forall i :: 0 <= i < |r| ==> r[i] == rep || (!inRun(r[i]) && r[i] in s)
    decreases |s|
  {
    if s == [] then []
    else if inRun(s[0]) then [rep] + CollapseRuns(s[Span(s, inRun)..], inRun, rep)
    else [s[0]] + CollapseRuns(s[1..], inRun, rep)
  }

  predicate IsDot(c: char) {
    c == '.'
  }

  /** No two neighbouring characters both belong to the class `p`. */
  predicate NoAdjacent(s: string, p: char -> bool) {
    forall i :: 0 <= i < |s| - 1 ==> !(p(s[i]) && p(s[i + 1]))
  }

  /** The only whitespace is the plain space, and never two in a row. */
  predicate SingleSpaced(s: string) {
    && (forall i :: 0 <= i < |s| && IsSpace(s[i]) ==> s[i] == ' ')
    && NoAdjacent(s, IsSpace)
  }

  /** Every mark of `.,!?` is followed by a space. */
  predicate PunctSpaced(s: string) {
    forall i :: 0 <= i < |s| && IsPunct(s[i]) ==> i + 1 < |s| && s[i + 1] == ' '
  }

  /** Whitespace stands right before a mark only when it is the space that
      follows another mark (as in `"! !"`). */
  predicate SpaceBeforePunctOnlyAfterPunct(s: string) {
    forall i :: 0 <= i < |s| - 1 && IsSpace(s[i]) && IsPunct(s[i + 1]) ==> 1 <= i && IsPunct(s[i - 1])
  }

  /** A trailing space is always the one that follows a final mark. */
  predicate TrailingSpaceAfterPunct(s: string) {
    |s| > 0 && IsSpace(s[|s| - 1]) ==> |s| >= 2 && IsPunct(s[|s| - 2])
  }

  /** A character that `clean_text` neither inserts nor deletes. */
  predicate Kept(c: char) {
    !IsSpace(c) && c != '.'
  }

  /** Step 1: `re.sub(r'\s+', ' ', text).strip()`. */
  function SqueezeSpaces(s: string): string {
    Strip(CollapseRuns(s, IsSpace, ' '))
  }

  /** Step 3: `re.sub(r'\s*([.,!?])\s*', r'\1 ', s)`. At each position the
      pattern matches when the whitespace run starting there is followed by a
      mark; the match then also takes the whitespace after the mark. Where it
      does not match, one character is copied and scanning moves on. */
  function SpacePunct(s: string): (r: string)
    ensures PunctSpaced(r)
    decreases |s|
  {
    if s == [] then []
    else
      var k := Span(s, IsSpace);
      if k < |s| && IsPunct(s[k]) then
        var rest := s[k + 1..];
        var rt := SpacePunct(rest[Span(rest, IsSpace)..]);
        PunctSpacedPrepend([s[k], ' '], rt);
        [s[k], ' '] + rt
      else
        var rt := SpacePunct(s[1..]);
        assert !IsPunct(s[0]) by {
          if !IsSpace(s[0]) {
            assert k == 0;
          }
        }
        PunctSpacedPrepend([s[0]], rt);
        [s[0]] + rt
  }

  lemma PunctSpacedPrepend(pre: string, rt: string)
    requires (|pre| == 1 && !IsPunct(pre[0])) || (|pre| == 2 && pre[1] == ' ')
    requires PunctSpaced(rt)
    ensures PunctSpaced(pre + rt)
  {
    var r := pre + rt;
    forall i | 0 <= i < |r| && IsPunct(r[i])
      ensures i + 1 < |r| && r[i + 1] == ' '
    {
      if i < |pre| {
        assert r[i] == pre[i];
        if |pre| == 2 {
          assert r[1] == pre[1];
        }
      } else {
        assert r[i] == rt[i - |pre|];
        assert r[i + 1] == rt[i + 1 - |pre|];
      }
    }
  }

  /** `clean_text(text)`. */
  function CleanText(text: string): (r: string)
    ensures SingleSpaced(r)
    ensures r == [] || !IsSpace(r[0])
    ensures PunctSpaced(r)
    ensures forall i :: 0 <= i < |r| - 1 ==> !(r[i] == '.' && r[i + 1] == '.')
    ensures SpaceBeforePunctOnlyAfterPunct(r)
    ensures TrailingSpaceAfterPunct(r)
  {
    var a := SqueezeSpaces(text);
    var b := CollapseRuns(a, IsDot, '.');
    SqueezeSpacesShape(text);
    CollapseDotsShape(a);
    SpacePunctShape(b);
    SpacePunct(b)
  }

  /** Cleaning only moves whitespace and periods: the other characters are
      those of the input, in order. */
  lemma CleanTextKeeps(text: string)
    ensures Filter(CleanText(text), Kept) == Filter(text, Kept)
  {
    var a := SqueezeSpaces(text);
    var b := CollapseRuns(a, IsDot, '.');
    SqueezeSpacesKeeps(text, Kept);
    CollapseRunsKeeps(a, IsDot, '.', Kept);
    SpacePunctKeeps(b, Kept);
  }

  /** Cleaning only moves whitespace and collapses period runs: the text
      without its whitespace is that of the squeezed text once its period
      runs are collapsed, and when no two periods touch in the input it is
      the input's own text without whitespace. */
  lemma CleanTextNonSpace(text: string)
    ensures Filter(CleanText(text), NonSpace) == Filter(CollapseRuns(SqueezeSpaces(text), IsDot, '.'), NonSpace)
    ensures NoAdjacent(text, IsDot) ==> Filter(CleanText(text), NonSpace) == Filter(text, NonSpace)
  {
    var a := SqueezeSpaces(text);
    SpacePunctKeeps(CollapseRuns(a, IsDot, '.'), NonSpace);
    if NoAdjacent(text, IsDot) {
      SqueezeSpacesNoAdjacentDots(text);
      CollapseRunsFixed(a, IsDot, '.');
      SqueezeSpacesKeeps(text, NonSpace);
    }
  }

  /** On text without any of the marks `.,!?`, cleaning is exactly
      `' '.join(text.split())`: every gap between words becomes one space. */
  lemma CleanTextPlain(text: string)
    requires forall i :: 0 <= i < |text| ==> !IsPunct(text[i])
    ensures CleanText(text) == Join(Words(text), " ")
  {
    var a := SqueezeSpaces(text);
    SqueezeSpacesShape(text);
    SqueezePlain(text);
    PlainSettled(a);
    SqueezeSpacesWords(text);
    SingleSpacedWords(a);
  }

  /** Squeezing adds no mark. */
  lemma SqueezePlain(text: string)
    requires forall i :: 0 <= i < |text| ==> !IsPunct(text[i])
    ensures forall i :: 0 <= i < |SqueezeSpaces(text)| ==> !IsPunct(SqueezeSpaces(text)[i])
  {
    FilterNone(text, IsPunct);
    SqueezeSpacesKeeps(text, IsPunct);
    FilterEmpty(SqueezeSpaces(text), IsPunct);
  }

  /** Steps 2 and 3 leave squeezed text without marks unchanged. */
  lemma PlainSettled(a: string)
    requires SingleSpaced(a) && Unpadded(a)
    requires forall i :: 0 <= i < |a| ==> !IsPunct(a[i])
    ensures SpacePunct(CollapseRuns(a, IsDot, '.')) == a
  {
    CollapseRunsFixed(a, IsDot, '.');
    SpacePunctFixed(a);
    assert a + FinalSpace(a) == a;
  }

  // ---------------------------------------------------------------------------
  // Run collapsing

  lemma CollapseRunsHead(s: string, inRun: char -> bool, rep: char)
    requires s != []
    ensures CollapseRuns(s, inRun, rep)[0] == if inRun(s[0]) then rep else s[0]
  {
  }

  lemma {:induction false} CollapseRunsLast(s: string, inRun: char -> bool, rep: char)
    requires s != []
    ensures var r := CollapseRuns(s, inRun, rep);
      r[|r| - 1] == if inRun(s[|s| - 1]) then rep else s[|s| - 1]
    decreases |s|
  {
    var k := if inRun(s[0]) then Span(s, inRun) else 1;
    var t := s[k..];
    assert CollapseRuns(s, inRun, rep) == [if inRun(s[0]) then rep else s[0]] + CollapseRuns(t, inRun, rep);
    if t != [] {
      CollapseRunsLast(t, inRun, rep);
      assert t[|t| - 1] == s[|s| - 1];
    }
  }

  /** Within the output no two neighbours both belong to the collapsed class. */
  lemma {:induction false} CollapseRunsNoAdjacent(s: string, inRun: char -> bool, rep: char)
    requires inRun(rep)
    ensures NoAdjacent(CollapseRuns(s, inRun, rep), inRun)
    decreases |s|
  {
    if s != [] {
      var r := CollapseRuns(s, inRun, rep);
      if inRun(s[0]) {
        var t := s[Span(s, inRun)..];
        CollapseRunsNoAdjacent(t, inRun, rep);
        if t != [] {
          CollapseRunsHead(t, inRun, rep);
        }
      } else {
        CollapseRunsNoAdjacent(s[1..], inRun, rep);
      }
    }
  }

  /** A class disjoint from the collapsed one keeps its no-two-in-a-row property. */
  lemma {:induction false} CollapseRunsKeepsNoAdjacent(s: string, inRun: char -> bool, rep: char, q: char -> bool)
    requires forall c :: q(c) ==> !inRun(c)
    requires !q(rep)
    requires NoAdjacent(s, q)
    ensures NoAdjacent(CollapseRuns(s, inRun, rep), q)
    decreases |s|
  {
    if s != [] {
      if inRun(s[0]) {
        var k := Span(s, inRun);
        var t := s[k..];
        assert NoAdjacent(t, q) by {
          assert forall i :: 0 <= i < |t| ==> t[i] == s[k + i];
        }
        CollapseRunsKeepsNoAdjacent(t, inRun, rep, q);
      } else {
        var t := s[1..];
        assert NoAdjacent(t, q) by {
          assert forall i :: 0 <= i < |t| ==> t[i] == s[1 + i];
        }
        CollapseRunsKeepsNoAdjacent(t, inRun, rep, q);
        if t != [] {
          CollapseRunsHead(t, inRun, rep);
          assert q(s[0]) ==> !q(s[1]);
        }
      }
    }
  }

  /** Characters of a class disjoint from the collapsed one are kept, in order,
      and none is added. */
  lemma {:induction false} CollapseRunsKeeps(s: string, inRun: char -> bool, rep: char, q: char -> bool)
    requires forall c :: q(c) ==> !inRun(c)
    requires !q(rep)
    ensures Filter(CollapseRuns(s, inRun, rep), q) == Filter(s, q)
    decreases |s|
  {
    if s != [] {
      if inRun(s[0]) {
        var k := Span(s, inRun);
        assert s == s[..k] + s[k..];
        FilterAppend(s[..k], s[k..], q);
        FilterNone(s[..k], q);
        FilterAppend([rep], CollapseRuns(s[k..], inRun, rep), q);
        CollapseRunsKeeps(s[k..], inRun, rep, q);
      } else {
        assert s == [s[0]] + s[1..];
        FilterAppend([s[0]], s[1..], q);
        FilterAppend([s[0]], CollapseRuns(s[1..], inRun, rep), q);
        CollapseRunsKeeps(s[1..], inRun, rep, q);
      }
    }
  }

  /** Each maximal run of the class leaves exactly one `rep` in its place:
      between text that does not end in the class and text that does not
      start with it, a run collapses to `rep` and both sides collapse on
      their own. */
  lemma {:induction false} CollapseRunsSplice(x: string, y: string, z: string, inRun: char -> bool, rep: char)
    requires x == [] || !inRun(x[|x| - 1])
    requires y != [] && forall i :: 0 <= i < |y| ==> inRun(y[i])
    requires z == [] || !inRun(z[0])
    ensures CollapseRuns(x + y + z, inRun, rep) == CollapseRuns(x, inRun, rep) + [rep] + CollapseRuns(z, inRun, rep)
    decreases |x|
  {
    if x == [] {
      assert x + y + z == y + z;
      CollapseRunAtStart(y, z, inRun, rep);
    } else {
      var k := if inRun(x[0]) then Span(x, inRun) else 1;
      var h := if inRun(x[0]) then rep else x[0];
      var x' := x[k..];
      var a, cz := CollapseRuns(x', inRun, rep), CollapseRuns(z, inRun, rep);
      assert CollapseRuns(x + y + z, inRun, rep) == [h] + CollapseRuns(x' + y + z, inRun, rep)
        && CollapseRuns(x, inRun, rep) == [h] + a by {
        CollapseRunsStep(x, y + z, inRun, rep);
        ConcatAssoc(x, y, z);
        ConcatAssoc(x', y, z);
      }
      assert CollapseRuns(x' + y + z, inRun, rep) == a + [rep] + cz by {
        assert 1 <= k <= |x|;
        assert x' == [] || x'[|x'| - 1] == x[|x| - 1];
        CollapseRunsSplice(x', y, z, inRun, rep);
      }
      ConcatAssoc([h], a + [rep], cz);
      ConcatAssoc([h], a, [rep]);
    }
  }

  /** A run at the very start collapses to one `rep`. */
  lemma CollapseRunAtStart(y: string, z: string, inRun: char -> bool, rep: char)
    requires y != [] && forall i :: 0 <= i < |y| ==> inRun(y[i])
    requires z == [] || !inRun(z[0])
    ensures CollapseRuns(y + z, inRun, rep) == [rep] + CollapseRuns(z, inRun, rep)
  {
    SpanAppend(y, z, inRun);
    assert (y + z)[|y|..] == z;
  }

  /** The first step of collapsing a string that does not end in the class
      stays inside it, whatever follows. */
  lemma CollapseRunsStep(x: string, w: string, inRun: char -> bool, rep: char)
    requires x != [] && !inRun(x[|x| - 1])
    ensures var k := if inRun(x[0]) then Span(x, inRun) else 1;
      var h := if inRun(x[0]) then rep else x[0];
      && 1 <= k <= |x|
      && CollapseRuns(x + w, inRun, rep) == [h] + CollapseRuns(x[k..] + w, inRun, rep)
      && CollapseRuns(x, inRun, rep) == [h] + CollapseRuns(x[k..], inRun, rep)
  {
    if inRun(x[0]) {
      CollapseRunsStepRun(x, w, inRun, rep);
    } else {
      CollapseRunsStepCopy(x, w, inRun, rep);
    }
  }

  lemma CollapseRunsStepRun(x: string, w: string, inRun: char -> bool, rep: char)
    requires x != [] && inRun(x[0]) && !inRun(x[|x| - 1])
    ensures var k := Span(x, inRun);
      && 1 <= k < |x|
      && CollapseRuns(x + w, inRun, rep) == [rep] + CollapseRuns(x[k..] + w, inRun, rep)
  {
    var k := Span(x, inRun);
    SpanAppend(x, w, inRun);
    assert (x + w)[k..] == x[k..] + w;
  }

  lemma CollapseRunsStepCopy(x: string, w: string, inRun: char -> bool, rep: char)
    requires x != [] && !inRun(x[0])
    ensures CollapseRuns(x + w, inRun, rep) == [x[0]] + CollapseRuns(x[1..] + w, inRun, rep)
  {
    assert (x + w)[0] == x[0];
    assert (x + w)[1..] == x[1..] + w;
  }

  /** A string that is already collapsed is a fixed point. */
  lemma {:induction false} CollapseRunsFixed(s: string, inRun: char -> bool, rep: char)
    requires forall i :: 0 <= i < |s| && inRun(s[i]) ==> s[i] == rep
    requires NoAdjacent(s, inRun)
    ensures CollapseRuns(s, inRun, rep) == s
    decreases |s|
  {
    if s != [] {
      var t := s[1..];
      assert NoAdjacent(t, inRun) by {
        assert forall i :: 0 <= i < |t| ==> t[i] == s[1 + i];
      }
      if inRun(s[0]) {
        assert Span(s, inRun) == 1 by {
          if |s| > 1 {
            assert !inRun(s[1]);
          }
        }
      }
      CollapseRunsFixed(t, inRun, rep);
      assert s == [s[0]] + t;
    }
  }

  // ---------------------------------------------------------------------------
  // Step 1 and step 2

  lemma SqueezeSpacesShape(s: string)
    ensures SingleSpaced(SqueezeSpaces(s)) && Unpadded(SqueezeSpaces(s))
  {
    var c := CollapseRuns(s, IsSpace, ' ');
    CollapseRunsNoAdjacent(s, IsSpace, ' ');
    assert SingleSpaced(c);
    var r := Strip(c);
    var a, b :| c == a + r + b && AllSpace(a) && AllSpace(b);
    InfixSingleSpaced(c, |a|, |a| + |r|);
    assert c[|a|..|a| + |r|] == r;
  }

  lemma InfixSingleSpaced(s: string, i: nat, j: nat)
    requires i <= j <= |s|
    requires SingleSpaced(s)
    ensures SingleSpaced(s[i..j])
  {
    var t := s[i..j];
    assert forall k :: 0 <= k < |t| ==> t[k] == s[i + k];
  }

  lemma SqueezeSpacesKeeps(s: string, q: char -> bool)
    requires forall c :: q(c) ==> !IsSpace(c)
    ensures Filter(SqueezeSpaces(s), q) == Filter(s, q)
  {
    var c := CollapseRuns(s, IsSpace, ' ');
    CollapseRunsKeeps(s, IsSpace, ' ', q);
    var r := Strip(c);
    var a, b :| c == a + r + b && AllSpace(a) && AllSpace(b);
    FilterAppend(a + r, b, q);
    FilterAppend(a, r, q);
    FilterNone(a, q);
    FilterNone(b, q);
  }

  /** Squeezing keeps the words: `text.split()` is unchanged by step 1. */
  lemma SqueezeSpacesWords(s: string)
    ensures Words(SqueezeSpaces(s)) == Words(s)
  {
    var c := CollapseRuns(s, IsSpace, ' ');
    CollapseSpacesWords(s);
    var r := Strip(c);
    var a, b :| c == a + r + b && AllSpace(a) && AllSpace(b);
    ConcatAssoc(a, r, b);
    WordsAfterSpace(a, r + b);
    if b != [] {
      WordsAppend(r, b);
      WordsAllSpace(b);
      assert Words(r) + [] == Words(r);
    } else {
      assert r + b == r;
    }
  }

  /** All-whitespace text has no words. */
  lemma WordsAllSpace(b: string)
    requires AllSpace(b)
    ensures Words(b) == []
  {
    WordsAfterSpace(b, []);
    assert b + [] == b;
  }

  /** Collapsing whitespace runs to one space keeps the words. */
  lemma {:induction false} CollapseSpacesWords(s: string)
    ensures Words(CollapseRuns(s, IsSpace, ' ')) == Words(s)
    decreases |s|
  {
    if s != [] {
      if IsSpace(s[0]) {
        var t := s[Span(s, IsSpace)..];
        CollapseSpacesWords(t);
        CollapseWordsAtSpace(s);
      } else {
        var rest := s[Span(s, NonSpace)..];
        CollapseSpacesWords(rest);
        CollapseWordsAtWord(s);
      }
    }
  }

  /** The step of `CollapseSpacesWords` at a whitespace run. */
  lemma CollapseWordsAtSpace(s: string)
    requires s != [] && IsSpace(s[0])
    requires var t := s[Span(s, IsSpace)..];
      Words(CollapseRuns(t, IsSpace, ' ')) == Words(t)
    ensures Words(CollapseRuns(s, IsSpace, ' ')) == Words(s)
  {
    var k := Span(s, IsSpace);
    var t := s[k..];
    assert CollapseRuns(s, IsSpace, ' ') == " " + CollapseRuns(t, IsSpace, ' ');
    WordsAfterSpace(" ", CollapseRuns(t, IsSpace, ' '));
    LeadingSpace(s, k);
    TakeDrop(s, k);
    WordsAfterSpace(s[..k], t);
  }

  /** The step of `CollapseSpacesWords` at a word. */
  lemma CollapseWordsAtWord(s: string)
    requires s != [] && !IsSpace(s[0])
    requires var rest := s[Span(s, NonSpace)..];
      Words(CollapseRuns(rest, IsSpace, ' ')) == Words(rest)
    ensures Words(CollapseRuns(s, IsSpace, ' ')) == Words(s)
  {
    var n := Span(s, NonSpace);
    var w, rest := s[..n], s[n..];
    assert 1 <= n && NoSpace(w) by {
      assert forall i :: 0 <= i < n ==> w[i] == s[i];
    }
    TakeDrop(s, n);
    CollapseKeepsWord(w, rest);
    var cr := CollapseRuns(rest, IsSpace, ' ');
    assert cr == [] || IsSpace(cr[0]) by {
      if rest != [] {
        CollapseRunsHead(rest, IsSpace, ' ');
      }
    }
    WordsAtWord(w, rest);
    WordsAtWord(w, cr);
  }

  /** The words of text that starts with a whole word. */
  lemma WordsAtWord(w: string, rest: string)
    requires w != [] && NoSpace(w)
    requires rest == [] || IsSpace(rest[0])
    ensures Words(w + rest) == [w] + Words(rest)
  {
    assert [] + w + rest == w + rest;
    WordsStep([], w, rest);
  }

  /** A word in front of the rest is copied unchanged by the collapse. */
  lemma {:induction false} CollapseKeepsWord(w: string, rest: string)
    requires NoSpace(w)
    ensures CollapseRuns(w + rest, IsSpace, ' ') == w + CollapseRuns(rest, IsSpace, ' ')
    decreases |w|
  {
    if w != [] {
      CollapseRunsStepCopy(w, rest, IsSpace, ' ');
      assert NoSpace(w[1..]) by {
        assert forall i :: 0 <= i < |w| - 1 ==> w[1..][i] == w[i + 1];
      }
      CollapseKeepsWord(w[1..], rest);
      assert w == [w[0]] + w[1..];
      ConcatAssoc([w[0]], w[1..], CollapseRuns(rest, IsSpace, ' '));
    } else {
      assert w + rest == rest;
    }
  }

  /** Single-spaced text without padding is its words joined by a space. */
  lemma {:induction false} SingleSpacedWords(s: string)
    requires SingleSpaced(s) && Unpadded(s)
    ensures Join(Words(s), " ") == s
    decreases |s|
  {
    if s == [] {
      assert Words(s) == [];
    } else {
      var n := Span(s, NonSpace);
      if n == |s| {
        assert NoSpace(s);
        WordsStep([], s, []);
        assert [] + s + [] == s;
      } else {
        var t := s[n + 1..];
        SingleSpacedSplit(s, n);
        SingleSpacedWords(t);
        WordsJoinStep(s[..n], t);
      }
    }
  }

  /** Single-spaced unpadded text with a space after its first word: the
      word, that space, and unpadded single-spaced text. */
  lemma {:induction false} SingleSpacedSplit(s: string, n: nat)
    requires SingleSpaced(s) && Unpadded(s) && s != []
    requires n == Span(s, NonSpace) && n < |s|
    ensures s == s[..n] + " " + s[n + 1..]
    ensures s[..n] != [] && NoSpace(s[..n])
    ensures s[n + 1..] != [] && SingleSpaced(s[n + 1..]) && Unpadded(s[n + 1..])
  {
    var w, t := s[..n], s[n + 1..];
    assert n + 1 < |s| && s[n] == ' ';
    assert NoSpace(w) by {
      assert forall i :: 0 <= i < n ==> w[i] == s[i];
    }
    assert s == w + " " + t by {
      TakeDrop(s, n);
      DropCons(s, n);
      ConcatAssoc(w, [s[n]], t);
    }
    assert SingleSpaced(t) && Unpadded(t) by {
      SuffixSingleSpaced(s, n + 1);
      assert t[0] == s[n + 1];
    }
  }

  /** A word, a space, and text that is its words joined by a space. */
  lemma {:induction false} WordsJoinStep(w: string, t: string)
    requires w != [] && NoSpace(w) && t != []
    requires Join(Words(t), " ") == t
    ensures Join(Words(w + " " + t), " ") == w + " " + t
  {
    var ws := Words(t);
    assert ws != [] by {
      assert Join([], " ") == "";
    }
    WordSpaceWords(w, t);
    JoinCons(w, ws, " ");
  }

  /** The words of a word, a space and more text. */
  lemma {:induction false} WordSpaceWords(w: string, t: string)
    requires w != [] && NoSpace(w)
    ensures Words(w + " " + t) == [w] + Words(t)
  {
    var u := " " + t;
    calc {
      Words(w + " " + t);
    == { ConcatAssoc(w, " ", t); }
      Words(w + u);
    == { WordsAtWord(w, u); }
      [w] + Words(u);
    == { WordsAfterSpace(" ", t); }
      [w] + Words(t);
    }
  }

  /** Squeezing never makes two periods touch. */
  lemma SqueezeSpacesNoAdjacentDots(s: string)
    requires NoAdjacent(s, IsDot)
    ensures NoAdjacent(SqueezeSpaces(s), IsDot)
  {
    var c := CollapseRuns(s, IsSpace, ' ');
    CollapseRunsKeepsNoAdjacent(s, IsSpace, ' ', IsDot);
    var r := Strip(c);
    var a, b :| c == a + r + b && AllSpace(a) && AllSpace(b);
    InfixNoAdjacent(c, |a|, |a| + |r|, IsDot);
    assert c[|a|..|a| + |r|] == r;
  }

  lemma InfixNoAdjacent(s: string, i: nat, j: nat, p: char -> bool)
    requires i <= j <= |s|
    requires NoAdjacent(s, p)
    ensures NoAdjacent(s[i..j], p)
  {
    var t := s[i..j];
    assert forall k :: 0 <= k < |t| ==> t[k] == s[i + k];
  }

  lemma CollapseDotsShape(a: string)
    requires SingleSpaced(a) && Unpadded(a)
    ensures SingleSpaced(CollapseRuns(a, IsDot, '.'))
    ensures Unpadded(CollapseRuns(a, IsDot, '.'))
  {
    var b := CollapseRuns(a, IsDot, '.');
    CollapseRunsKeepsNoAdjacent(a, IsDot, '.', IsSpace);
    if a != [] {
      CollapseRunsHead(a, IsDot, '.');
      CollapseRunsLast(a, IsDot, '.');
    }
  }

  // ---------------------------------------------------------------------------
  // Step 3

  /** The first character the punctuation rewrite emits. */
  lemma SpacePunctHead(s: string)
    requires s != []
    ensures var k := Span(s, IsSpace);
      var r := SpacePunct(s);
      r != [] && r[0] == if k < |s| && IsPunct(s[k]) then s[k] else s[0]
  {
  }

  lemma SuffixSingleSpaced(s: string, j: nat)
    requires j <= |s|
    requires SingleSpaced(s) && (s == [] || !IsSpace(s[|s| - 1]))
    ensures var t := s[j..]; SingleSpaced(t) && (t == [] || !IsSpace(t[|t| - 1]))
  {
    var t := s[j..];
    assert forall i :: 0 <= i < |t| ==> t[i] == s[j + i];
  }

  /** On single-spaced text without trailing whitespace, the rewrite leaves text
      that is single-spaced, puts whitespace before a mark only right after
      another mark, ends in whitespace only after a mark, and starts with
      whitespace only if the input did. */
  lemma {:induction false} SpacePunctShape(s: string)
    requires SingleSpaced(s) && (s == [] || !IsSpace(s[|s| - 1]))
    ensures var r := SpacePunct(s);
      && SingleSpaced(r)
      && SpaceBeforePunctOnlyAfterPunct(r)
      && TrailingSpaceAfterPunct(r)
      && (s != [] && !IsSpace(s[0]) ==> r != [] && !IsSpace(r[0]))
    decreases |s|, 1
  {
    if s != [] {
      var k := Span(s, IsSpace);
      if k < |s| && IsPunct(s[k]) {
        ShapeAfterMatch(s, k);
      } else {
        ShapeAfterCopy(s, k);
      }
    }
  }

  /** `SpacePunctShape` where the pattern matches at the start. */
  lemma {:induction false} ShapeAfterMatch(s: string, k: nat)
    requires SingleSpaced(s) && s != [] && !IsSpace(s[|s| - 1])
    requires k == Span(s, IsSpace) && k < |s| && IsPunct(s[k])
    ensures var r := SpacePunct(s);
      SingleSpaced(r) && SpaceBeforePunctOnlyAfterPunct(r) && TrailingSpaceAfterPunct(r)
      && (!IsSpace(s[0]) ==> !IsSpace(r[0]))
    decreases |s|, 0
  {
    var rest := s[k + 1..];
    var t := rest[Span(rest, IsSpace)..];
    SuffixSingleSpaced(s, k + 1);
    SuffixSingleSpaced(rest, Span(rest, IsSpace));
    SpacePunctShape(t);
    SpacePunctShapeMatch(s, k, t);
  }

  /** `SpacePunctShape` where the first character is copied. */
  lemma {:induction false} ShapeAfterCopy(s: string, k: nat)
    requires SingleSpaced(s) && s != [] && !IsSpace(s[|s| - 1])
    requires k == Span(s, IsSpace) && !(k < |s| && IsPunct(s[k]))
    ensures var r := SpacePunct(s);
      SingleSpaced(r) && SpaceBeforePunctOnlyAfterPunct(r) && TrailingSpaceAfterPunct(r)
      && (!IsSpace(s[0]) ==> !IsSpace(r[0]))
    decreases |s|, 0
  {
    SuffixSingleSpaced(s, 1);
    SpacePunctShape(s[1..]);
    SpacePunctShapeCopy(s, k);
  }

  /** The step of `SpacePunctShape` where the pattern matches. */
  lemma SpacePunctShapeMatch(s: string, k: nat, t: string)
    requires k < |s| && IsPunct(s[k]) && k == Span(s, IsSpace)
    requires t == s[k + 1..][Span(s[k + 1..], IsSpace)..]
    requires var rt := SpacePunct(t);
      SingleSpaced(rt) && SpaceBeforePunctOnlyAfterPunct(rt) && TrailingSpaceAfterPunct(rt)
    ensures var r := SpacePunct(s);
      SingleSpaced(r) && SpaceBeforePunctOnlyAfterPunct(r) && TrailingSpaceAfterPunct(r)
      && (!IsSpace(s[0]) ==> !IsSpace(r[0]))
  {
    var rt := SpacePunct(t);
    SpacePunctMatches(s, k);
    if t != [] {
      SpacePunctHead(t);
    }
    PunctTailShape(s[k], rt);
    assert !IsSpace(s[k]);
  }

  /** Where the pattern matches, the rewrite writes the mark and one space and
      resumes after the whitespace that follows the mark. */
  lemma SpacePunctMatches(s: string, k: nat)
    requires k == Span(s, IsSpace) && k < |s| && IsPunct(s[k])
    ensures SpacePunct(s) == [s[k], ' '] + SpacePunct(s[k + 1..][Span(s[k + 1..], IsSpace)..])
  {
  }

  /** The step of `SpacePunctShape` where one character is copied. */
  lemma SpacePunctShapeCopy(s: string, k: nat)
    requires SingleSpaced(s) && s != [] && !IsSpace(s[|s| - 1])
    requires k == Span(s, IsSpace) && !(k < |s| && IsPunct(s[k]))
    requires var rt := SpacePunct(s[1..]);
      SingleSpaced(rt) && SpaceBeforePunctOnlyAfterPunct(rt) && TrailingSpaceAfterPunct(rt)
    ensures var r := SpacePunct(s);
      SingleSpaced(r) && SpaceBeforePunctOnlyAfterPunct(r) && TrailingSpaceAfterPunct(r)
      && (!IsSpace(s[0]) ==> !IsSpace(r[0]))
  {
    var rt := SpacePunct(s[1..]);
    SpacePunctCopies(s, k);
    CopyStepFacts(s, k);
    CopyTailShape(s[0], rt);
  }

  /** Text without marks that does not end in whitespace passes through
      unchanged, whatever follows it: whitespace away from the marks stays. */
  lemma {:induction false} SpacePunctPlainPrefix(x: string, y: string)
    requires forall i :: 0 <= i < |x| ==> !IsPunct(x[i])
    requires x == [] || !IsSpace(x[|x| - 1])
    ensures SpacePunct(x + y) == x + SpacePunct(y)
    decreases |x|
  {
    if x == [] {
      assert x + y == y;
    } else {
      var x' := x[1..];
      assert SpacePunct(x + y) == [x[0]] + SpacePunct(x' + y) by {
        PlainPrefixStep(x, y);
      }
      assert SpacePunct(x' + y) == x' + SpacePunct(y) by {
        assert forall i :: 0 <= i < |x'| ==> x'[i] == x[i + 1];
        assert x' == [] || x'[|x'| - 1] == x[|x| - 1];
        SpacePunctPlainPrefix(x', y);
      }
      assert [x[0]] + x' == x;
      ConcatAssoc([x[0]], x', SpacePunct(y));
    }
  }

  /** The first character of an unmarked prefix is copied. */
  lemma PlainPrefixStep(x: string, y: string)
    requires x != [] && forall i :: 0 <= i < |x| ==> !IsPunct(x[i])
    requires !IsSpace(x[|x| - 1])
    ensures SpacePunct(x + y) == [x[0]] + SpacePunct(x[1..] + y)
  {
    var s := x + y;
    var k := Span(s, IsSpace);
    assert k < |x| && s[k] == x[k] by {
      SpanAppend(x, y, IsSpace);
    }
    SpacePunctCopies(s, k);
    assert s[1..] == x[1..] + y;
  }

  /** A mark with the whitespace on both sides of it becomes the mark and one
      space, and the rewrite goes on after that whitespace. */
  lemma SpacePunctAtMark(w1: string, m: char, w2: string, z: string)
    requires AllSpace(w1) && AllSpace(w2) && IsPunct(m)
    requires z == [] || !IsSpace(z[0])
    ensures SpacePunct(w1 + [m] + w2 + z) == [m, ' '] + SpacePunct(z)
  {
    var s := w1 + [m] + w2 + z;
    MarkMatch(w1, m, w2, z);
    SpacePunctMatches(s, |w1|);
  }

  /** Where the pattern matches in `w1 + [m] + w2 + z`, and where it resumes. */
  lemma MarkMatch(w1: string, m: char, w2: string, z: string)
    requires AllSpace(w1) && AllSpace(w2) && IsPunct(m)
    requires z == [] || !IsSpace(z[0])
    ensures var s := w1 + [m] + w2 + z; var k := |w1|;
      && k == Span(s, IsSpace) && k < |s| && s[k] == m
      && s[k + 1..][Span(s[k + 1..], IsSpace)..] == z
  {
    var s := w1 + [m] + w2 + z;
    var k := |w1|;
    assert k == Span(s, IsSpace) && s[k] == m by {
      assert s == w1 + ([m] + w2 + z);
      SpanAppend(w1, [m] + w2 + z, IsSpace);
      SpanAllSpace(w1);
    }
    assert s[k + 1..] == w2 + z;
    SkipLeadingSpace(w2, z);
  }

  /** Skipping the leading whitespace of `w + z` leaves `z`. */
  lemma SkipLeadingSpace(w: string, z: string)
    requires AllSpace(w)
    requires z == [] || !IsSpace(z[0])
    ensures (w + z)[Span(w + z, IsSpace)..] == z
  {
    SpanAppend(w, z, IsSpace);
    SpanAllSpace(w);
  }

  /** An all-whitespace string is one whitespace span. */
  lemma {:induction false} SpanAllSpace(w: string)
    requires AllSpace(w)
    ensures Span(w, IsSpace) == |w|
    decreases |w|
  {
    if w != [] {
      assert AllSpace(w[1..]);
      SpanAllSpace(w[1..]);
    }
  }

  /** Where the pattern does not match, the rewrite copies the first character. */
  lemma SpacePunctCopies(s: string, k: nat)
    requires s != [] && k == Span(s, IsSpace) && !(k < |s| && IsPunct(s[k]))
    ensures SpacePunct(s) == [s[0]] + SpacePunct(s[1..])
  {
  }

  /** What the copy step needs about the copied character: a lone space not
      followed by a mark, and never whitespace at the very end. */
  lemma CopyStepFacts(s: string, k: nat)
    requires SingleSpaced(s) && s != [] && !IsSpace(s[|s| - 1])
    requires k == Span(s, IsSpace) && !(k < |s| && IsPunct(s[k]))
    ensures var rt := SpacePunct(s[1..]);
      && !IsPunct(s[0])
      && (IsSpace(s[0]) ==> s[0] == ' ' && rt != [] && !IsSpace(rt[0]) && !IsPunct(rt[0]))
      && (rt == [] ==> !IsSpace(s[0]))
  {
    var t := s[1..];
    if IsSpace(s[0]) {
      assert |s| > 1 && !IsSpace(s[1]);
      assert k == 1;
      SpacePunctHead(t);
      assert SpacePunct(t)[0] == s[1];
    } else {
      assert k == 0;
    }
  }

  /** A mark and its space in front of the rest of the rewrite keep its shape. */
  lemma PunctTailShape(p: char, rt: string)
    requires IsPunct(p)
    requires SingleSpaced(rt) && SpaceBeforePunctOnlyAfterPunct(rt) && TrailingSpaceAfterPunct(rt)
    requires rt == [] || !IsSpace(rt[0])
    ensures var r := [p, ' '] + rt;
      SingleSpaced(r) && SpaceBeforePunctOnlyAfterPunct(r) && TrailingSpaceAfterPunct(r)
  {
    AppendIndex([p, ' '], rt);
    PunctTailSpaced(p, rt);
    PunctTailBefore(p, rt);
  }

  lemma PunctTailSpaced(p: char, rt: string)
    requires IsPunct(p) && SingleSpaced(rt) && (rt == [] || !IsSpace(rt[0]))
    ensures SingleSpaced([p, ' '] + rt)
  {
    var r := [p, ' '] + rt;
    AppendIndex([p, ' '], rt);
    forall i | 0 <= i < |r| - 1
      ensures !(IsSpace(r[i]) && IsSpace(r[i + 1]))
    {
      if i >= 2 {
        assert r[i] == rt[i - 2] && r[i + 1] == rt[i - 1];
      }
    }
  }

  lemma PunctTailBefore(p: char, rt: string)
    requires IsPunct(p) && SpaceBeforePunctOnlyAfterPunct(rt) && (rt == [] || !IsSpace(rt[0]))
    ensures SpaceBeforePunctOnlyAfterPunct([p, ' '] + rt)
  {
    var r := [p, ' '] + rt;
    AppendIndex([p, ' '], rt);
    forall i | 0 <= i < |r| - 1 && IsSpace(r[i]) && IsPunct(r[i + 1])
      ensures 1 <= i && IsPunct(r[i - 1])
    {
      if i >= 3 {
        assert rt[i - 1] == r[i + 1] && rt[i - 2] == r[i] && rt[i - 3] == r[i - 1];
      }
    }
  }

  /** One copied character in front of the rest of the rewrite keeps its shape. */
  lemma CopyTailShape(c: char, rt: string)
    requires !IsPunct(c)
    requires IsSpace(c) ==> c == ' ' && rt != [] && !IsSpace(rt[0]) && !IsPunct(rt[0])
    requires SingleSpaced(rt) && SpaceBeforePunctOnlyAfterPunct(rt) && TrailingSpaceAfterPunct(rt)
    requires rt == [] ==> !IsSpace(c)
    ensures var r := [c] + rt;
      SingleSpaced(r) && SpaceBeforePunctOnlyAfterPunct(r) && TrailingSpaceAfterPunct(r)
  {
    AppendIndex([c], rt);
    CopyTailSpaced(c, rt);
    CopyTailBefore(c, rt);
  }

  lemma CopyTailSpaced(c: char, rt: string)
    requires IsSpace(c) ==> c == ' ' && rt != [] && !IsSpace(rt[0])
    requires SingleSpaced(rt)
    ensures SingleSpaced([c] + rt)
  {
    var r := [c] + rt;
    AppendIndex([c], rt);
    forall i | 0 <= i < |r| - 1
      ensures !(IsSpace(r[i]) && IsSpace(r[i + 1]))
    {
      if i >= 1 {
        assert r[i] == rt[i - 1] && r[i + 1] == rt[i];
      }
    }
  }

  lemma CopyTailBefore(c: char, rt: string)
    requires !IsPunct(c)
    requires IsSpace(c) ==> rt != [] && !IsPunct(rt[0])
    requires SpaceBeforePunctOnlyAfterPunct(rt)
    ensures SpaceBeforePunctOnlyAfterPunct([c] + rt)
  {
    var r := [c] + rt;
    AppendIndex([c], rt);
    forall i | 0 <= i < |r| - 1 && IsSpace(r[i]) && IsPunct(r[i + 1])
      ensures 1 <= i && IsPunct(r[i - 1])
    {
      if i >= 2 {
        assert rt[i] == r[i + 1] && rt[i - 1] == r[i] && rt[i - 2] == r[i - 1];
      }
    }
  }

  /** The rewrite only moves whitespace: every other character is kept, in order. */
  lemma {:induction false} SpacePunctKeeps(s: string, q: char -> bool)
    requires forall c :: q(c) ==> !IsSpace(c)
    ensures Filter(SpacePunct(s), q) == Filter(s, q)
    decreases |s|
  {
    if s != [] {
      var k := Span(s, IsSpace);
      if k < |s| && IsPunct(s[k]) {
        var rest := s[k + 1..];
        var m := Span(rest, IsSpace);
        var t := rest[m..];
        SpacePunctKeeps(t, q);
        SpacePunctKeepsMatch(s, k, m, t, q);
      } else {
        SpacePunctKeeps(s[1..], q);
        SpacePunctCopies(s, k);
        DropCons(s, 0);
        FilterAppend([s[0]], s[1..], q);
        FilterAppend([s[0]], SpacePunct(s[1..]), q);
      }
    }
  }

  lemma SpacePunctKeepsMatch(s: string, k: nat, m: nat, t: string, q: char -> bool)
    requires forall c :: q(c) ==> !IsSpace(c)
    requires k == Span(s, IsSpace) && k < |s| && IsPunct(s[k])
    requires m == Span(s[k + 1..], IsSpace) && t == s[k + 1..][m..]
    requires Filter(SpacePunct(t), q) == Filter(t, q)
    ensures Filter(SpacePunct(s), q) == Filter(s, q)
  {
    FilterAroundMark(s, k, m, t, q);
    SpacePunctMatches(s, k);
    FilterMarkSpace(s[k], SpacePunct(t), q);
  }

  /** The space written after a mark is not a kept character. */
  lemma FilterMarkSpace(c: char, rt: string, q: char -> bool)
    requires forall c :: q(c) ==> !IsSpace(c)
    ensures Filter([c, ' '] + rt, q) == Filter([c], q) + Filter(rt, q)
  {
    var a := [' '] + rt;
    assert [c, ' '] + rt == [c] + a;
    FilterAppend([' '], rt, q);
    FilterAppend([c], a, q);
  }

  /** Deleting the whitespace around a mark does not change the kept characters. */
  lemma FilterAroundMark(s: string, k: nat, m: nat, t: string, q: char -> bool)
    requires forall c :: q(c) ==> !IsSpace(c)
    requires k == Span(s, IsSpace) && k < |s|
    requires m == Span(s[k + 1..], IsSpace) && t == s[k + 1..][m..]
    ensures Filter(s, q) == Filter([s[k]], q) + Filter(t, q)
  {
    var rest := s[k + 1..];
    var pre, gap, p := s[..k], rest[..m], [s[k]];
    LeadingSpace(s, k);
    LeadingSpace(rest, m);
    TakeDrop(rest, m);
    DropCons(s, k);
    TakeDrop(s, k);
    FilterSkipsSpace(pre, p, gap, t, q);
  }

  lemma FilterSkipsSpace(pre: string, p: string, gap: string, t: string, q: char -> bool)
    requires forall c :: q(c) ==> !IsSpace(c)
    requires AllSpace(pre) && AllSpace(gap)
    ensures Filter(pre + (p + (gap + t)), q) == Filter(p, q) + Filter(t, q)
  {
    var a := gap + t;
    var b := p + a;
    assert Filter(a, q) == Filter(t, q) by {
      FilterNone(gap, q);
      FilterAppend(gap, t, q);
    }
    assert Filter(b, q) == Filter(p, q) + Filter(a, q) by {
      FilterAppend(p, a, q);
    }
    assert Filter(pre + b, q) == Filter(b, q) by {
      FilterNone(pre, q);
      FilterAppend(pre, b, q);
    }
  }

  /** Cleaned text is one line: every newline has become a space. */
  lemma CleanTextOneLine(text: string)
    ensures '\n' !in CleanText(text)
  {
    var r := CleanText(text);
    assert forall i :: 0 <= i < |r| ==> r[i] != '\n' by {
      assert IsSpace('\n');
    }
  }

  // ---------------------------------------------------------------------------
  // Idempotence

  /** Cleaning already-clean text changes nothing. */
  lemma CleanTextIdempotent(x: string)
    ensures CleanText(CleanText(x)) == CleanText(x)
  {
    CleanFixedPoint(CleanText(x));
  }

  /** Text of the shape `clean_text` produces is a fixed point of it. */
  lemma CleanFixedPoint(y: string)
    requires SingleSpaced(y) && (y == [] || !IsSpace(y[0]))
    requires PunctSpaced(y) && SpaceBeforePunctOnlyAfterPunct(y) && TrailingSpaceAfterPunct(y)
    ensures CleanText(y) == y
  {
    var z := if y != [] && IsSpace(y[|y| - 1]) then y[..|y| - 1] else y;
    SettledPrefix(y, z);
    SqueezeSettled(y, z);
    assert CollapseRuns(z, IsDot, '.') == z by {
      CollapseRunsFixed(z, IsDot, '.');
    }
    assert SpacePunct(z) == y by {
      SpacePunctFixed(z);
    }
  }

  /** Squeezing clean text only drops its trailing space. */
  lemma SqueezeSettled(y: string, z: string)
    requires SingleSpaced(y) && Unpadded(z) && y == z + FinalSpace(z)
    ensures SqueezeSpaces(y) == z
  {
    CollapseRunsFixed(y, IsSpace, ' ');
    var b := FinalSpace(z);
    assert AllSpace(b);
    assert y == [] + z + b;
    StripRecovers([], z, b);
  }

  /** Dropping the trailing space of clean text leaves settled text. */
  lemma SettledPrefix(y: string, z: string)
    requires SingleSpaced(y) && (y == [] || !IsSpace(y[0]))
    requires PunctSpaced(y) && SpaceBeforePunctOnlyAfterPunct(y) && TrailingSpaceAfterPunct(y)
    requires z == if y != [] && IsSpace(y[|y| - 1]) then y[..|y| - 1] else y
    ensures SettledCore(z) && Unpadded(z) && NoAdjacent(z, IsDot)
    ensures y == z + FinalSpace(z)
  {
    var n := |z|;
    assert z == y[..n];
    PrefixShape(y, n);
    var last := if y == [] then ' ' else y[|y| - 1];
    var before := if |y| < 2 then ' ' else y[|y| - 2];
    assert y != [] && IsSpace(last) ==> last == ' ' && |y| >= 2 && IsPunct(before);
    assert y != [] && !IsSpace(last) ==> !IsPunct(last);
    TrailingSplit(y, z);
  }

  /** Clean text is its settled prefix followed by the space after a final mark. */
  lemma TrailingSplit(y: string, z: string)
    requires z == if y != [] && IsSpace(y[|y| - 1]) then y[..|y| - 1] else y
    requires y != [] && IsSpace(y[|y| - 1]) ==> y[|y| - 1] == ' ' && |y| >= 2 && IsPunct(y[|y| - 2])
    requires y != [] && !IsSpace(y[|y| - 1]) ==> !IsPunct(y[|y| - 1])
    ensures y == z + FinalSpace(z)
  {
    if y != [] && IsSpace(y[|y| - 1]) {
      assert z[|z| - 1] == y[|y| - 2];
      TakeDrop(y, |z|);
      assert y[|z|..] == [y[|y| - 1]];
    } else {
      assert z + [] == z;
    }
  }

  /** Every prefix of clean text inherits its shape inside. */
  lemma PrefixShape(y: string, n: nat)
    requires n <= |y|
    requires SingleSpaced(y) && (y == [] || !IsSpace(y[0]))
    requires PunctSpaced(y) && SpaceBeforePunctOnlyAfterPunct(y)
    requires n < |y| ==> IsSpace(y[n])
    requires n == |y| ==> y == [] || !IsSpace(y[|y| - 1])
    ensures SingleSpaced(y[..n]) && MarksSpacedInside(y[..n]) && SpaceBeforePunctOnlyAfterPunct(y[..n])
    ensures NoAdjacent(y[..n], IsDot)
    ensures y[..n] == [] || (!IsSpace(y[0]) && !IsSpace(y[n - 1]))
  {
    var z := y[..n];
    assert forall i :: 0 <= i < n ==> z[i] == y[i];
    assert n >= 1 && n < |y| ==> !IsSpace(y[n - 1]);
    forall i | 0 <= i < n - 1 && IsSpace(z[i]) && IsPunct(z[i + 1])
      ensures 1 <= i && IsPunct(z[i - 1])
    {
      assert IsSpace(y[i]) && IsPunct(y[i + 1]);
    }
  }

  /** Text with every mark but a final one followed by a space. */
  predicate MarksSpacedInside(s: string) {
    forall i :: 0 <= i < |s| - 1 && IsPunct(s[i]) ==> s[i + 1] == ' '
  }

  /** What clean text looks like once its trailing space is removed. */
  predicate SettledCore(z: string) {
    && SingleSpaced(z)
    && (z == [] || !IsSpace(z[|z| - 1]))
    && MarksSpacedInside(z)
    && SpaceBeforePunctOnlyAfterPunct(z)
  }

  /** On settled text the punctuation rewrite only adds the space after a final mark. */
  lemma {:induction false} SpacePunctFixed(z: string)
    requires SettledCore(z)
    ensures SpacePunct(z) == z + FinalSpace(z)
    decreases |z|
  {
    if z != [] {
      if IsPunct(z[0]) {
        if |z| == 1 {
          assert Span(z, IsSpace) == 0;
          assert SpacePunct(z) == [z[0], ' '];
        } else {
          SettledSuffix(z, 2);
          SpacePunctFixed(z[2..]);
          SpacePunctFixedMark(z);
        }
      } else {
        SettledSuffix(z, 1);
        SpacePunctFixed(z[1..]);
        SpacePunctFixedCopy(z);
      }
    }
  }

  /** The space `clean_text` leaves after a final mark. */
  function FinalSpace(z: string): string {
    if z != [] && IsPunct(z[|z| - 1]) then " " else ""
  }

  lemma SpacePunctFixedMark(z: string)
    requires SettledCore(z) && |z| >= 2 && IsPunct(z[0])
    requires SpacePunct(z[2..]) == z[2..] + FinalSpace(z[2..])
    ensures SpacePunct(z) == z + FinalSpace(z)
  {
    assert z[1] == ' ' && |z| >= 3 && !IsSpace(z[2]);
    MarkThenSpace(z);
    var t := z[2..];
    assert FinalSpace(t) == FinalSpace(z) by {
      assert t[|t| - 1] == z[|z| - 1];
    }
    ConsTwo(z);
    ConcatAssoc([z[0], ' '], t, FinalSpace(t));
  }

  /** A mark followed by one space and a non-space: the rewrite matches the
      mark and its space and resumes after them. */
  lemma MarkThenSpace(z: string)
    requires |z| >= 3 && IsPunct(z[0]) && z[1] == ' ' && !IsSpace(z[2])
    ensures SpacePunct(z) == [z[0], ' '] + SpacePunct(z[2..])
  {
    assert Span(z, IsSpace) == 0;
    var rest := z[1..];
    assert Span(rest, IsSpace) == 1 by {
      assert rest[0] == ' ' && rest[1] == z[2];
      assert Span(rest[1..], IsSpace) == 0;
    }
    assert rest[1..] == z[2..];
  }

  lemma SpacePunctFixedCopy(z: string)
    requires SettledCore(z) && |z| >= 1 && !IsPunct(z[0])
    requires SpacePunct(z[1..]) == z[1..] + FinalSpace(z[1..])
    ensures SpacePunct(z) == z + FinalSpace(z)
  {
    var k := Span(z, IsSpace);
    SettledNoMatch(z);
    SpacePunctCopies(z, k);
    FinalSpaceDrop(z);
    DropCons(z, 0);
    ConcatAssoc([z[0]], z[1..], FinalSpace(z));
  }

  /** Settled text that does not open with a mark does not open with
      whitespace before a mark either. */
  lemma SettledNoMatch(z: string)
    requires SettledCore(z) && |z| >= 1 && !IsPunct(z[0])
    ensures var k := Span(z, IsSpace); !(k < |z| && IsPunct(z[k]))
  {
    if IsSpace(z[0]) {
      assert |z| > 1 && !IsSpace(z[1]);
      assert Span(z[1..], IsSpace) == 0 by {
        assert z[1..][0] == z[1];
      }
      assert !IsPunct(z[1]);
    }
  }

  /** Dropping the first character keeps the space after a final mark. */
  lemma FinalSpaceDrop(z: string)
    requires |z| >= 1 && !IsPunct(z[0])
    ensures FinalSpace(z[1..]) == FinalSpace(z)
  {
    if |z| > 1 {
      assert z[1..][|z| - 2] == z[|z| - 1];
    }
  }

  lemma SettledSuffix(z: string, j: nat)
    requires SettledCore(z) && 1 <= j <= 2 && j <= |z|
    requires j == 2 ==> IsPunct(z[0])
    requires j == 1 ==> !IsPunct(z[0])
    ensures SettledCore(z[j..])
  {
    SuffixSingleSpaced(z, j);
    SuffixMarksSpaced(z, j);
    SuffixSpaceBefore(z, j);
  }

  lemma SuffixMarksSpaced(z: string, j: nat)
    requires j <= |z| && MarksSpacedInside(z)
    ensures MarksSpacedInside(z[j..])
  {
    var t := z[j..];
    assert forall i :: 0 <= i < |t| ==> t[i] == z[j + i];
  }

  lemma SuffixSpaceBefore(z: string, j: nat)
    requires SettledCore(z) && 1 <= j <= 2 && j <= |z|
    requires j == 2 ==> IsPunct(z[0])
    requires j == 1 ==> !IsPunct(z[0])
    ensures SpaceBeforePunctOnlyAfterPunct(z[j..])
  {
    var t := z[j..];
    assert forall i :: 0 <= i < |t| ==> t[i] == z[j + i];
    assert j == 2 ==> z[1] == ' ';
    forall i | 0 <= i < |t| - 1 && IsSpace(t[i]) && IsPunct(t[i + 1])
      ensures 1 <= i && IsPunct(t[i - 1])
    {
      assert z[j + i] == t[i] && z[j + i + 1] == t[i + 1];
      if i >= 1 {
        assert t[i - 1] == z[j + i - 1];
      }
    }
  }
}
