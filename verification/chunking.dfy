/**
 `split_into_chunks`: sentences are packed greedily, in order, into chunks of
 at most `max_length` words (counted with `str.split()`), each chunk being its
 sentences joined by a space. A chunk is closed only when the next sentence
 would overflow it, so a single sentence longer than the limit still becomes
 a chunk of its own.
 */
module Chunking {
  import opened Text
  import opened Seqs
  import opened Cleaning
  import opened Sentences

  /** The default `max_length`, in words. */
  const DefaultMaxLength := 1024

  // ---------------------------------------------------------------------------
  // The loop as written

  /** The `for sentence in sentences` loop on the sentences not yet seen:
      `chunks` are the closed chunks, `cur` the open one and `curLen` the
      running word count of the open one. */
  function PackSentences(sents: seq<string>, max: int, chunks: seq<string>, cur: seq<string>, curLen: int): (r: seq<string>)
    ensures |chunks| <= |r| && r[..|chunks|] == chunks
    ensures |r| <= |chunks| + |sents| + (if cur != [] then 1 else 0)
    ensures sents != [] || cur != [] ==> |r| > |chunks|
    decreases |sents|
  {
    if sents == [] then
      if cur != [] then chunks + [Join(cur, " ")] else chunks
    else
      var n := WordCount(sents[0]);
      if curLen + n > max then
        var closed := if cur != [] then chunks + [Join(cur, " ")] else chunks;
        PackSentences(sents[1..], max, closed, [sents[0]], n)
      else
        PackSentences(sents[1..], max, chunks, cur + [sents[0]], curLen + n)
  }

  /** `split_into_chunks(text, max_length)`; there is always a chunk, since the
      split always gives a sentence. */
  function SplitIntoChunks(text: string, max: int): (r: seq<string>)
    ensures |r| >= 1
  {
    var sents := SplitSentences(text);
    PackGroupsStart(sents, max);
    GroupsGreedy(sents, max);
    PackSentences(sents, max, [], [], 0)
  }

  /** The chunks are the greedy groups of the sentences, each joined by a space. */
  lemma ChunksAreGroups(text: string, max: int)
    ensures SplitIntoChunks(text, max) == JoinEach(Groups(SplitSentences(text), max))
  {
    PackGroupsStart(SplitSentences(text), max);
  }

  /** Each group joined by a space. */
  function JoinEach(gs: seq<seq<string>>): (r: seq<string>)
    ensures |r| == |gs|
    ensures forall i :: 0 <= i < |gs| ==> r[i] == Join(gs[i], " ")
  {
    if gs == [] then [] else [Join(gs[0], " ")] + JoinEach(gs[1..])
  }

  // ---------------------------------------------------------------------------
  // The greedy grouping, defined group by group

  /** The number of leading sentences of `xs` taken while their word counts
      still fit `budget`. */
  function FitCount(xs: seq<string>, budget: int): (k: nat)
    ensures k <= |xs|
  {
    if xs == [] || WordCount(xs[0]) > budget then 0
    else 1 + FitCount(xs[1..], budget - WordCount(xs[0]))
  }

  /** `FitCount` takes the longest prefix that fits: the prefix it takes fits
      and one more sentence would not. */
  lemma {:induction false} FitCountBounds(xs: seq<string>, budget: int)
    ensures var k := FitCount(xs, budget);
      && (k == 0 || SumWordCounts(xs[..k]) <= budget)
      && (k < |xs| ==> SumWordCounts(xs[..k + 1]) > budget)
    decreases |xs|
  {
    if xs == [] || WordCount(xs[0]) > budget {
      assert xs != [] ==> xs[..1] == [xs[0]];
    } else {
      var left := budget - WordCount(xs[0]);
      var k := FitCount(xs[1..], left);
      FitTakes(xs, budget, left);
      FitCountBounds(xs[1..], left);
      assert xs[..k + 1][1..] == xs[1..][..k];
      assert k + 1 < |xs| ==> xs[..k + 2][1..] == xs[1..][..k + 1];
    }
  }

  /** The reference grouping: each group is its first sentence followed by as
      many of the next sentences as keep the group within `max` words. */
  function Groups(xs: seq<string>, max: int): seq<seq<string>>
    decreases |xs|
  {
    if xs == [] then []
    else
      var k := 1 + FitCount(xs[1..], max - WordCount(xs[0]));
      [xs[..k]] + Groups(xs[k..], max)
  }

  /** The reference grouping partitions the sentences greedily. */
  lemma {:induction false} GroupsGreedy(xs: seq<string>, max: int)
    ensures GreedyPartition(Groups(xs, max), xs, max)
    ensures xs == [] <==> Groups(xs, max) == []
    decreases |xs|
  {
    if xs != [] {
      var k := 1 + FitCount(xs[1..], max - WordCount(xs[0]));
      GroupHead(xs, max, k);
      GroupsGreedy(xs[k..], max);
      GroupsCons(xs, max, k, Groups(xs[k..], max));
    }
  }

  /** A first group closed where the greedy rule closes it, followed by a
      greedy partition of the rest, is a greedy partition of the whole. */
  lemma GroupsCons(xs: seq<string>, max: int, k: nat, rest: seq<seq<string>>)
    requires 1 <= k <= |xs|
    requires k == 1 || SumWordCounts(xs[..k]) <= max
    requires k < |xs| ==> SumWordCounts(xs[..k]) + WordCount(xs[k]) > max
    requires GreedyPartition(rest, xs[k..], max)
    ensures GreedyPartition([xs[..k]] + rest, xs, max)
  {
    var r := [xs[..k]] + rest;
    assert r[1..] == rest;
    assert xs == xs[..k] + xs[k..];
    assert forall i :: 1 <= i < |r| ==> r[i] == rest[i - 1];
    if rest != [] {
      assert rest[0][0] == Flatten(rest)[0];
      assert r[1][0] == xs[k];
    }
  }

  /** The first group: within `max` words unless it is one sentence, and
      closed only because the next sentence would overflow it. */
  lemma GroupHead(xs: seq<string>, max: int, k: nat)
    requires xs != [] && k == 1 + FitCount(xs[1..], max - WordCount(xs[0]))
    ensures k <= |xs|
    ensures k == 1 || SumWordCounts(xs[..k]) <= max
    ensures k < |xs| ==> SumWordCounts(xs[..k]) + WordCount(xs[k]) > max
  {
    var ys := xs[1..];
    FitCountBounds(ys, max - WordCount(xs[0]));
    SumTake(xs, k);
    if k < |xs| {
      SumSnoc(ys, k - 1);
      assert ys[k - 1] == xs[k];
    }
  }

  /** The word count of a prefix is that of its first sentence plus the rest. */
  lemma SumTake(xs: seq<string>, k: nat)
    requires 1 <= k <= |xs|
    ensures SumWordCounts(xs[..k]) == WordCount(xs[0]) + SumWordCounts(xs[1..][..k - 1])
  {
    assert xs[..k][1..] == xs[1..][..k - 1];
  }

  /** One more sentence adds its word count. */
  lemma SumSnoc(xs: seq<string>, k: nat)
    requires k < |xs|
    ensures SumWordCounts(xs[..k + 1]) == SumWordCounts(xs[..k]) + WordCount(xs[k])
  {
    assert xs[..k + 1] == xs[..k] + [xs[k]];
    SumWordCountsAppend(xs[..k], [xs[k]]);
    assert SumWordCounts([xs[k]]) == WordCount(xs[k]) + SumWordCounts([]);
  }

  // ---------------------------------------------------------------------------
  // The loop computes the reference grouping

  /** The groups of sentences the loop closes, before they are joined: the
      open group `cur` of `curLen` words, then the sentences not yet seen. */
  function LoopGroups(sents: seq<string>, max: int, cur: seq<string>, curLen: int): seq<seq<string>>
    decreases |sents|
  {
    var closed := if cur != [] then [cur] else [];
    if sents == [] then closed
    else
      var n := WordCount(sents[0]);
      if curLen + n > max then closed + LoopGroups(sents[1..], max, [sents[0]], n)
      else LoopGroups(sents[1..], max, cur + [sents[0]], curLen + n)
  }

  /** The loop appends the groups it closes, each joined by a space. */
  lemma {:induction false} PackJoins(sents: seq<string>, max: int, chunks: seq<string>, cur: seq<string>, curLen: int)
    ensures PackSentences(sents, max, chunks, cur, curLen) == chunks + JoinEach(LoopGroups(sents, max, cur, curLen))
    decreases |sents|
  {
    if sents == [] {
      if cur == [] {
        assert chunks + [] == chunks;
      }
    } else {
      var n := WordCount(sents[0]);
      if curLen + n > max {
        PackJoins(sents[1..], max, if cur != [] then chunks + [Join(cur, " ")] else chunks, [sents[0]], n);
        if cur != [] {
          JoinEachCons(cur, LoopGroups(sents[1..], max, [sents[0]], n));
          ConcatAssoc(chunks, [Join(cur, " ")], JoinEach(LoopGroups(sents[1..], max, [sents[0]], n)));
        } else {
          assert [] + LoopGroups(sents[1..], max, [sents[0]], n) == LoopGroups(sents[1..], max, [sents[0]], n);
        }
      } else {
        PackJoins(sents[1..], max, chunks, cur + [sents[0]], curLen + n);
      }
    }
  }

  /** Joining a group in front. */
  lemma JoinEachCons(g: seq<string>, gs: seq<seq<string>>)
    ensures JoinEach([g] + gs) == [Join(g, " ")] + JoinEach(gs)
  {
    assert ([g] + gs)[1..] == gs;
  }

  /** With an open group `cur` of `curLen` words, the loop closes it after the
      sentences that still fit and then produces the reference groups of the
      rest. */
  lemma {:induction false} LoopGroupsGreedy(sents: seq<string>, max: int, cur: seq<string>, curLen: int)
    requires cur != []
    ensures var m := FitCount(sents, max - curLen);
      LoopGroups(sents, max, cur, curLen) == [cur + sents[..m]] + Groups(sents[m..], max)
    decreases |sents|, 2
  {
    if sents == [] {
      assert cur + sents[..0] == cur;
    } else if curLen + WordCount(sents[0]) > max {
      LoopCloses(sents, max, cur, curLen);
    } else {
      LoopExtends(sents, max, cur, curLen);
    }
  }

  /** The step of `LoopGroupsGreedy` where the next sentence still fits the open group. */
  lemma {:induction false} LoopExtends(sents: seq<string>, max: int, cur: seq<string>, curLen: int)
    requires cur != [] && sents != []
    requires curLen + WordCount(sents[0]) <= max
    ensures var m := FitCount(sents, max - curLen);
      LoopGroups(sents, max, cur, curLen) == [cur + sents[..m]] + Groups(sents[m..], max)
    decreases |sents|, 0
  {
    var len := curLen + WordCount(sents[0]);
    var k := FitCount(sents[1..], max - len);
    var m := FitCount(sents, max - curLen);
    var grown := cur + [sents[0]];
    LoopGroupsGreedy(sents[1..], max, grown, len);
    LoopFits(sents, max, cur, curLen, len);
    FitTakes(sents, max - curLen, max - len);
    ExtendSlices(sents, cur, k, m);
    GroupsCongruent(cur + sents[..m], grown + sents[1..][..k], sents[m..], sents[1..][k..], max);
  }

  lemma GroupsCongruent(g: seq<string>, g': seq<string>, rest: seq<string>, rest': seq<string>, max: int)
    requires g == g' && rest == rest'
    ensures [g] + Groups(rest, max) == [g'] + Groups(rest', max)
  {
  }

  /** The loop on a sentence that fits extends the open group. */
  lemma LoopFits(sents: seq<string>, max: int, cur: seq<string>, curLen: int, len: int)
    requires sents != [] && len == curLen + WordCount(sents[0]) && len <= max
    ensures LoopGroups(sents, max, cur, curLen) == LoopGroups(sents[1..], max, cur + [sents[0]], len)
  {
  }

  /** The open group grown by the first sentence and the `k` that follow it. */
  lemma ExtendSlices(sents: seq<string>, cur: seq<string>, k: nat, m: nat)
    requires m == 1 + k && m <= |sents|
    ensures cur + sents[..m] == cur + [sents[0]] + sents[1..][..k]
    ensures sents[m..] == sents[1..][k..]
  {
    PrefixCons(sents, k);
    ConcatAssoc(cur, [sents[0]], sents[1..][..k]);
  }

  /** The step of `LoopGroupsGreedy` where the next sentence overflows the open group. */
  lemma {:induction false} LoopCloses(sents: seq<string>, max: int, cur: seq<string>, curLen: int)
    requires cur != [] && sents != []
    requires curLen + WordCount(sents[0]) > max
    ensures var m := FitCount(sents, max - curLen);
      LoopGroups(sents, max, cur, curLen) == [cur + sents[..m]] + Groups(sents[m..], max)
    decreases |sents|, 1
  {
    LoopOpens(sents, max);
    FitStops(sents, max - curLen);
    assert cur + sents[..0] == cur;
  }

  /** The loop started on a first sentence opens a group with it and then
      produces the reference groups. */
  lemma {:induction false} LoopOpens(sents: seq<string>, max: int)
    requires sents != []
    ensures LoopGroups(sents[1..], max, [sents[0]], WordCount(sents[0])) == Groups(sents, max)
    decreases |sents|, 0
  {
    var k := FitCount(sents[1..], max - WordCount(sents[0]));
    LoopGroupsGreedy(sents[1..], max, [sents[0]], WordCount(sents[0]));
    GroupsFirst(sents, max, k);
  }

  /** The loop started on no chunks computes the reference grouping. */
  lemma PackGroupsStart(sents: seq<string>, max: int)
    requires sents != []
    ensures PackSentences(sents, max, [], [], 0) == JoinEach(Groups(sents, max))
  {
    PackJoins(sents, max, [], [], 0);
    LoopOpens(sents, max);
    assert LoopGroups(sents, max, [], 0) == LoopGroups(sents[1..], max, [sents[0]], WordCount(sents[0])) by {
      assert [] + [sents[0]] == [sents[0]];
    }
    assert [] + JoinEach(Groups(sents, max)) == JoinEach(Groups(sents, max));
  }

  /** A first sentence within the budget is taken. */
  lemma FitTakes(xs: seq<string>, budget: int, left: int)
    requires xs != [] && WordCount(xs[0]) <= budget && left == budget - WordCount(xs[0])
    ensures FitCount(xs, budget) == 1 + FitCount(xs[1..], left)
  {
  }

  /** A first sentence over the budget stops the count. */
  lemma FitStops(xs: seq<string>, budget: int)
    requires xs != [] && WordCount(xs[0]) > budget
    ensures FitCount(xs, budget) == 0
  {
  }

  /** The first reference group and the rest. */
  lemma GroupsFirst(xs: seq<string>, max: int, k: nat)
    requires xs != [] && k == FitCount(xs[1..], max - WordCount(xs[0]))
    ensures Groups(xs, max) == [[xs[0]] + xs[1..][..k]] + Groups(xs[1..][k..], max)
  {
    GroupsUnfold(xs, max, k);
    PrefixCons(xs, k);
  }

  /** One step of `Groups`. */
  lemma GroupsUnfold(xs: seq<string>, max: int, k: nat)
    requires xs != [] && k == FitCount(xs[1..], max - WordCount(xs[0]))
    ensures Groups(xs, max) == [xs[..1 + k]] + Groups(xs[1 + k..], max)
  {
  }

  // ---------------------------------------------------------------------------
  // What the chunks are

  /** A partition of `xs` into nonempty groups that keeps each group within
      `max` words unless it is one sentence, and closes a group only when the
      next sentence would overflow it. */
  predicate GreedyPartition(gs: seq<seq<string>>, xs: seq<string>, max: int) {
    && Flatten(gs) == xs
    && (forall i :: 0 <= i < |gs| ==> gs[i] != [])
    && (forall i :: 0 <= i < |gs| ==> |gs[i]| == 1 || SumWordCounts(gs[i]) <= max)
    && (forall i :: 0 <= i < |gs| - 1 ==> SumWordCounts(gs[i]) + WordCount(gs[i + 1][0]) > max)
  }

  /** The reference grouping is a greedy partition, and the only one: the two
      rules fix every group boundary. */
  lemma {:induction false} GroupsUnique(gs: seq<seq<string>>, xs: seq<string>, max: int)
    ensures GreedyPartition(gs, xs, max) <==> gs == Groups(xs, max)
    decreases |gs|
  {
    GroupsGreedy(xs, max);
    if GreedyPartition(gs, xs, max) && gs != [] {
      var g, tail := gs[0], gs[1..];
      var k := |g|;
      assert gs == [g] + tail;
      assert xs == g + Flatten(tail);
      assert xs[..k] == g && xs[k..] == Flatten(tail);
      FirstGroupLength(gs, xs, max);
      assert GreedyPartition(tail, xs[k..], max) by {
        assert forall i :: 0 <= i < |tail| ==> tail[i] == gs[i + 1];
      }
      GroupsUnique(tail, xs[k..], max);
    }
  }

  /** In a greedy partition the first group has the reference length. */
  lemma FirstGroupLength(gs: seq<seq<string>>, xs: seq<string>, max: int)
    requires GreedyPartition(gs, xs, max) && gs != []
    ensures xs != [] && |gs[0]| == 1 + FitCount(xs[1..], max - WordCount(xs[0]))
  {
    var g, tail := gs[0], gs[1..];
    var k := |g|;
    assert gs == [g] + tail;
    assert xs == g + Flatten(tail);
    assert xs[..k] == g;
    var big := 1 + FitCount(xs[1..], max - WordCount(xs[0]));
    GroupHead(xs, max, big);
    if k < big {
      // the partition closed a group that could still take the next sentence
      assert tail != [] && tail[0] != [];
      assert tail[0][0] == xs[k] by {
        assert Flatten(tail)[0] == tail[0][0];
      }
      assert SumWordCounts(g) + WordCount(xs[k]) > max;
      SumSnoc(xs, k);
      SumPrefixMono(xs, k + 1, big);
    } else if k > big {
      // the partition kept a group past the sentence that overflows it
      assert SumWordCounts(xs[..k]) <= max;
      SumSnoc(xs, big);
      SumPrefixMono(xs, big + 1, k);
    }
  }

  /** Word counts of prefixes grow with the prefix. */
  lemma SumPrefixMono(xs: seq<string>, a: nat, b: nat)
    requires a <= b <= |xs|
    ensures SumWordCounts(xs[..a]) <= SumWordCounts(xs[..b])
  {
    assert xs[..b] == xs[..a] + xs[a..b];
    SumWordCountsAppend(xs[..a], xs[a..b]);
  }

  /** Joining the chunks with a space is joining the sentences with a space. */
  lemma {:induction false} JoinFlatten(gs: seq<seq<string>>)
    requires forall i :: 0 <= i < |gs| ==> gs[i] != []
    ensures Join(JoinEach(gs), " ") == Join(Flatten(gs), " ")
  {
    if |gs| == 1 {
      assert gs[1..] == [];
      assert Flatten(gs) == gs[0];
      assert JoinEach(gs) == [Join(gs[0], " ")];
    } else if |gs| > 1 {
      var g, tail := gs[0], gs[1..];
      JoinFlatten(tail);
      assert JoinEach(gs) == [Join(g, " ")] + JoinEach(tail);
      JoinCons(Join(g, " "), JoinEach(tail), " ");
      assert Flatten(tail) != [] by {
        assert Flatten(tail) == tail[0] + Flatten(tail[1..]);
      }
      JoinAppend(g, Flatten(tail), " ");
    }
  }

  /** Joining the chunks by a space is joining the sentences by a space: no
      sentence is dropped, repeated or moved. */
  lemma ChunksJoinSentences(text: string, max: int)
    ensures Join(SplitIntoChunks(text, max), " ") == Join(SplitSentences(text), " ")
  {
    var sents := SplitSentences(text);
    ChunksAreGroups(text, max);
    GroupsGreedy(sents, max);
    JoinFlatten(Groups(sents, max));
  }

  /** No text is lost or reordered: on single-spaced text, such as the output
      of `clean_text`, the chunks joined by a space are the text. */
  lemma ChunksRejoin(text: string, max: int)
    requires SingleSpaced(text)
    ensures Join(SplitIntoChunks(text, max), " ") == text
  {
    ChunksJoinSentences(text, max);
    JoinSplitSentences(text);
  }

  /** A chunk is over the word limit only when it is a single sentence of the
      text that is over the limit on its own. */
  lemma ChunkBound(text: string, max: int, i: nat)
    requires i < |SplitIntoChunks(text, max)|
    ensures var c := SplitIntoChunks(text, max)[i];
      WordCount(c) <= max || c in SplitSentences(text)
  {
    var gs := Groups(SplitSentences(text), max);
    ChunksAreGroups(text, max);
    GroupsGreedy(SplitSentences(text), max);
    var g := gs[i];
    WordCountJoin(g);
    if |g| == 1 {
      assert Join(g, " ") == g[0];
      FlattenMember(gs, i, g[0]);
    }
  }

  /** Empty text still yields one, empty, chunk. */
  lemma ChunksOfEmpty(max: int)
    ensures SplitIntoChunks("", max) == [""]
  {
    SplitNoBreak("");
    ChunksAreGroups("", max);
    var xs: seq<string> := [""];
    assert xs[1..] == [] && xs[..1] == xs;
    assert Groups(xs, max) == [xs];
  }
}
