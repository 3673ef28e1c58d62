/**
 `extract_key_points`: the sentences that mention one of a fixed list of
 keywords, stripped of surrounding whitespace, in text order. A keyword
 matches as a substring of the lower-cased sentence, so `plan` also matches
 inside `planet`. The list of action words that `format_summary` uses to pick
 action items out of the key points lives here too.
 */
module KeyPoints {
  import opened Text
  import opened Seqs
  import opened Sentences

  /** The `important_keywords` of `extract_key_points`, in source order. */
  const ImportantKeywords: seq<string> := [
    "action", "decide", "agree", "plan", "need", "must", "should", "will",
    "deadline", "important", "critical", "urgent", "priority", "key",
    "decision", "approved", "rejected", "concluded", "assigned", "responsible"
  ]

  /** The words that mark a key point as a potential action item. */
  const ActionWords: seq<string> := ["action", "task", "need", "must", "should", "will", "deadline"]

  /** `any(word in s for word in words)`, scanning the words in order. */
  predicate AnyContained(s: string, words: seq<string>) {
    words != [] && (Contains(s, words[0]) || AnyContained(s, words[1..]))
  }

  /** The scan finds a word exactly when some word of the list occurs in `s`. */
  lemma {:induction false} AnyContainedIff(s: string, words: seq<string>)
    ensures AnyContained(s, words) <==> exists i :: 0 <= i < |words| && Contains(s, words[i])
  {
    if words != [] {
      AnyContainedIff(s, words[1..]);
      if exists i :: 0 <= i < |words| && Contains(s, words[i]) {
        var i :| 0 <= i < |words| && Contains(s, words[i]);
        if i > 0 {
          assert words[1..][i - 1] == words[i];
        }
      }
      if exists i :: 0 <= i < |words[1..]| && Contains(s, words[1..][i]) {
        var i :| 0 <= i < |words[1..]| && Contains(s, words[1..][i]);
        assert words[i + 1] == words[1..][i];
      }
    }
  }

  /** A stripped sentence is a key point when its lower-cased text contains
      one of the important keywords. */
  predicate IsKeyPoint(sentence: string) {
    AnyContained(Lower(sentence), ImportantKeywords)
  }

  /** A key point is an action item when its lower-cased text contains one of
      the action words. */
  predicate IsActionItem(point: string) {
    AnyContained(Lower(point), ActionWords)
  }

  /** A sentence is a key point exactly when some important keyword occurs
      at some position of its lower-cased text. */
  lemma IsKeyPointIff(s: string)
    ensures IsKeyPoint(s) <==>
      exists i, j :: 0 <= i < |ImportantKeywords| && OccursAt(Lower(s), ImportantKeywords[i], j)
  {
    AnyOccursIff(Lower(s), ImportantKeywords);
  }

  /** A key point is an action item exactly when some action word occurs at
      some position of its lower-cased text. */
  lemma IsActionItemIff(s: string)
    ensures IsActionItem(s) <==>
      exists i, j :: 0 <= i < |ActionWords| && OccursAt(Lower(s), ActionWords[i], j)
  {
    AnyOccursIff(Lower(s), ActionWords);
  }

  /** The scan over a word list, stated with positions. */
  lemma AnyOccursIff(s: string, words: seq<string>)
    ensures AnyContained(s, words) <==> exists i, j :: 0 <= i < |words| && OccursAt(s, words[i], j)
  {
    AnyContainedIff(s, words);
    forall i | 0 <= i < |words|
      ensures Contains(s, words[i]) <==> exists j :: OccursAt(s, words[i], j)
    {
      ContainsIffOccurs(s, words[i]);
    }
  }

  /** `[s.strip() for s in sentences]`. */
  function StripAll(sents: seq<string>): (r: seq<string>)
    ensures |r| == |sents|
    ensures forall i :: 0 <= i < |r| ==> r[i] == Strip(sents[i])
  {
    if sents == [] then [] else [Strip(sents[0])] + StripAll(sents[1..])
  }

  /** `extract_key_points(text)`. */
  function ExtractKeyPoints(text: string): (r: seq<string>)
    ensures forall i :: 0 <= i < |r| ==> IsKeyPoint(r[i])
    ensures forall i :: 0 <= i < |r| ==> r[i] != []
    ensures forall i :: 0 <= i < |r| ==> !IsSpace(r[i][0]) && !IsSpace(r[i][|r[i]| - 1])
  {
    var r := Filter(StripAll(SplitSentences(text)), IsKeyPoint);
    assert forall i :: 0 <= i < |r| ==> r[i] != [] by {
      forall i | 0 <= i < |r|
        ensures r[i] != []
      {
        KeyPointNonEmpty(r[i]);
      }
    }
    StripAllShape(SplitSentences(text));
    FilterKeeps(StripAll(SplitSentences(text)), IsKeyPoint, Unpadded);
    r
  }

  lemma StripAllShape(sents: seq<string>)
    ensures forall i :: 0 <= i < |StripAll(sents)| ==> Unpadded(StripAll(sents)[i])
  {
  }

  /** A filter keeps any property that every element has. */
  lemma {:induction false} FilterKeeps(xs: seq<string>, p: string -> bool, q: string -> bool)
    requires forall i :: 0 <= i < |xs| ==> q(xs[i])
    ensures forall i :: 0 <= i < |Filter(xs, p)| ==> q(Filter(xs, p)[i])
  {
    if xs != [] {
      FilterKeeps(xs[1..], p, q);
    }
  }

  /** Every keyword is nonempty, so a key point has at least one character. */
  lemma KeyPointNonEmpty(s: string)
    requires IsKeyPoint(s)
    ensures s != []
  {
    AnyContainedIff(Lower(s), ImportantKeywords);
    var i :| 0 <= i < |ImportantKeywords| && Contains(Lower(s), ImportantKeywords[i]);
    assert |ImportantKeywords[i]| >= 3;
  }

  /** The key points keep the order of the sentences they come from. */
  lemma KeyPointsInOrder(text: string)
    ensures IsSubsequence(ExtractKeyPoints(text), StripAll(SplitSentences(text)))
  {
    FilterIsSubsequence(StripAll(SplitSentences(text)), IsKeyPoint);
  }

  /** A stripped sentence appears among the key points exactly as often as it
      occurs in the text when it mentions a keyword, and never otherwise. */
  lemma KeyPointsCount(text: string, x: string)
    ensures multiset(ExtractKeyPoints(text))[x]
      == if IsKeyPoint(x) then multiset(StripAll(SplitSentences(text)))[x] else 0
  {
    FilterCount(StripAll(SplitSentences(text)), IsKeyPoint, x);
  }

  /** A character absent from the text is absent from every key point. */
  lemma KeyPointsAvoid(text: string, c: char)
    requires c !in text
    ensures forall i :: 0 <= i < |ExtractKeyPoints(text)| ==> c !in ExtractKeyPoints(text)[i]
  {
    var sents := SplitSentences(text);
    SplitAvoids(text, c);
    var stripped := StripAll(sents);
    forall i | 0 <= i < |stripped|
      ensures c !in stripped[i]
    {
      StripAvoids(sents[i], c);
    }
    FilterKeeps(stripped, IsKeyPoint, x => c !in x);
  }

  /** Matching ignores letter case: lower-casing is idempotent. */
  lemma LowerIdempotent(s: string)
    ensures Lower(Lower(s)) == Lower(s)
  {
  }

  lemma KeyPointIgnoresCase(s: string)
    ensures IsKeyPoint(Lower(s)) <==> IsKeyPoint(s)
  {
    LowerIdempotent(s);
  }

  /** Keywords match inside longer words: `planet` contains `plan`. */
  lemma KeywordInsideWord()
    ensures IsKeyPoint("The planet is round.")
  {
    var s := "the planet is round.";
    LowerSample();
    SampleHasPlan();
    assert ImportantKeywords[3] == "plan";
    AnyContainedIff(s, ImportantKeywords);
  }

  lemma LowerSample()
    ensures Lower("The planet is round.") == "the planet is round."
  {
  }

  lemma SampleHasPlan()
    ensures Contains("the planet is round.", "plan")
  {
    var s := "the planet is round.";
    assert OccursAt(s, "plan", 4) by {
      assert s[4..8] == "plan";
    }
    ContainsIffOccurs(s, "plan");
  }
}
