/** `generate_statistics` of src/main.py (and of Anki_flashcards_creator.py): card count,
    tag-occurrence distribution and average question/answer lengths. Averages are exact
    `real` quotients; Python's floating-point rounding is not modelled. */
module Statistics {
  import opened Common
  import opened Flashcards

  datatype Stats = Stats(totalCards: nat, tagsDistribution: map<string, nat>,
                         avgQuestionLength: real, avgAnswerLength: real)

  /** Every tag of every card, card by card and in list order, repeats included. */
  function AllTags(cards: seq<Flashcard>): seq<string>
    decreases |cards|
  {
    if cards == [] then [] else AllTags(cards[..|cards| - 1]) + cards[|cards| - 1].tags
  }

  lemma AllTagsAppend(cards: seq<Flashcard>, c: Flashcard)
    ensures AllTags(cards + [c]) == AllTags(cards) + c.tags
  {
    assert (cards + [c])[..|cards|] == cards;
  }

  /** A tag occurs in `AllTags` exactly when some card carries it. */
  lemma {:induction false} AllTagsMembers(cards: seq<Flashcard>, t: string)
    ensures t in AllTags(cards) <==> exists c :: c in cards && t in c.tags
    decreases |cards|
  {
    if cards != [] {
      var init := cards[..|cards| - 1];
      var last := cards[|cards| - 1];
      AllTagsMembers(init, t);
      assert cards == init + [last];
      assert forall c :: c in cards <==> c in init || c == last;
    }
  }

  /** One `tags_distribution[tag] += 1`, creating the entry at 0 first. */
  function Bump(m: map<string, nat>, t: string): map<string, nat> {
    m[t := (if t in m then m[t] else 0) + 1]
  }

  /** The distribution after counting the tags `ts` in order. */
  function TagCounts(ts: seq<string>): map<string, nat>
    decreases |ts|
  {
    if ts == [] then map[] else Bump(TagCounts(ts[..|ts| - 1]), ts[|ts| - 1])
  }

  lemma TagCountsAppend(ts: seq<string>, t: string)
    ensures TagCounts(ts + [t]) == Bump(TagCounts(ts), t)
  {
    assert (ts + [t])[..|ts|] == ts;
  }

  /** The keys are exactly the tags that occur, each mapped to its number of occurrences. */
  lemma {:induction false} TagCountsSpec(ts: seq<string>)
    ensures forall t :: t in TagCounts(ts) <==> t in ts
    ensures forall t :: t in TagCounts(ts) ==> TagCounts(ts)[t] == Count(ts, t)
    decreases |ts|
  {
    if ts != [] {
      var init := ts[..|ts| - 1];
      var x := ts[|ts| - 1];
      TagCountsSpec(init);
      assert ts == init + [x];
      forall t ensures Count(ts, t) == Count(init, t) + (if t == x then 1 else 0) {
        CountAppend(init, [x], t);
        assert Count([x], t) == Count([], t) + (if x == t then 1 else 0);
      }
      forall t | t in init ensures Count(init, t) > 0 {
        CountPositive(init, t);
      }
      forall t | t !in init ensures Count(init, t) == 0 {
        CountPositive(init, t);
      }
    }
  }

  /** The counts summed over a list of keys. */
  function SumOver(m: map<string, nat>, keys: seq<string>): nat
    decreases |keys|
  {
    if keys == [] then 0
    else SumOver(m, keys[..|keys| - 1]) + (if keys[|keys| - 1] in m then m[keys[|keys| - 1]] else 0)
  }

  lemma {:induction false} SumOverFrame(m: map<string, nat>, n: map<string, nat>, keys: seq<string>)
    requires forall k :: k in keys ==> (k in m <==> k in n) && (k in m ==> m[k] == n[k])
    ensures SumOver(m, keys) == SumOver(n, keys)
    decreases |keys|
  {
    if keys != [] {
      var init := keys[..|keys| - 1];
      assert forall k :: k in init ==> k in keys;
      SumOverFrame(m, n, init);
      assert keys[|keys| - 1] in keys;
    }
  }

  lemma {:induction false} SumOverBump(m: map<string, nat>, keys: seq<string>, t: string)
    requires forall i, j :: 0 <= i < j < |keys| ==> keys[i] != keys[j]
    requires t in keys
    ensures SumOver(Bump(m, t), keys) == SumOver(m, keys) + 1
    decreases |keys|
  {
    var init := keys[..|keys| - 1];
    var last := keys[|keys| - 1];
    assert keys == init + [last];
    if last == t {
      assert forall i :: 0 <= i < |init| ==> init[i] == keys[i] && keys[i] != last;
      SumOverFrame(m, Bump(m, t), init);
    } else {
      assert t in init;
      SumOverBump(m, init, t);
    }
  }

  /** Each occurrence adds one to the distribution, so the counts, summed over the
      distinct tags, add up to the number of tag occurrences. */
  lemma {:induction false} TagCountsSum(ts: seq<string>)
    ensures SumOver(TagCounts(ts), Dedup(ts)) == |ts|
    decreases |ts|
  {
    if ts != [] {
      var init := ts[..|ts| - 1];
      var x := ts[|ts| - 1];
      TagCountsSum(init);
      var m := TagCounts(init);
      var d := Dedup(init);
      if x in d {
        SumOverBump(m, d, x);
      } else {
        TagCountsSpec(init);
        assert Dedup(ts) == d + [x];
        assert (d + [x])[..|d|] == d;
        SumOverFrame(m, Bump(m, x), d);
      }
    }
  }

  function QuestionLengthSum(cards: seq<Flashcard>): nat
    decreases |cards|
  {
    if cards == [] then 0 else QuestionLengthSum(cards[..|cards| - 1]) + |cards[|cards| - 1].question|
  }

  function AnswerLengthSum(cards: seq<Flashcard>): nat
    decreases |cards|
  {
    if cards == [] then 0 else AnswerLengthSum(cards[..|cards| - 1]) + |cards[|cards| - 1].answer|
  }

  /** `generate_statistics`: the averages over the cards and the tag distribution. */
  method GenerateStatistics(cards: seq<Flashcard>) returns (stats: Stats)
    ensures stats.totalCards == |cards|
    ensures stats.tagsDistribution == TagCounts(AllTags(cards))
    ensures cards == [] ==> stats.tagsDistribution == map[] && stats.avgQuestionLength == 0.0 && stats.avgAnswerLength == 0.0
    ensures cards != [] ==> stats.avgQuestionLength == QuestionLengthSum(cards) as real / |cards| as real
    ensures cards != [] ==> stats.avgAnswerLength == AnswerLengthSum(cards) as real / |cards| as real
  {
    stats := Stats(|cards|, map[], 0.0, 0.0);
    if cards != [] {
      stats := stats.(avgQuestionLength := QuestionLengthSum(cards) as real / |cards| as real,
                      avgAnswerLength := AnswerLengthSum(cards) as real / |cards| as real);
      var distribution := CountTags(cards);
      stats := stats.(tagsDistribution := distribution);
    }
  }

  /** The nested counting loops of `generate_statistics`: one `+= 1` per tag occurrence,
      card by card and tag by tag. */
  method CountTags(cards: seq<Flashcard>) returns (distribution: map<string, nat>)
    ensures distribution == TagCounts(AllTags(cards))
  {
    distribution := map[];
    for i := 0 to |cards|
      invariant distribution == TagCounts(AllTags(cards[..i]))
    {
      var tags := cards[i].tags;
      ghost var before := AllTags(cards[..i]);
      assert before + tags[..0] == before;
      for j := 0 to |tags|
        invariant distribution == TagCounts(before + tags[..j])
      {
        ghost var counted := distribution;
        if tags[j] !in distribution {
          distribution := distribution[tags[j] := 0];
        }
        distribution := distribution[tags[j] := distribution[tags[j]] + 1];
        assert distribution == Bump(counted, tags[j]);
        TagStep(before, tags, j);
      }
      CardStep(cards, i);
    }
    assert cards[..|cards|] == cards;
  }

  lemma TagStep(before: seq<string>, tags: seq<string>, j: nat)
    requires j < |tags|
    ensures TagCounts(before + tags[..j + 1]) == Bump(TagCounts(before + tags[..j]), tags[j])
  {
    assert before + tags[..j + 1] == (before + tags[..j]) + [tags[j]];
    TagCountsAppend(before + tags[..j], tags[j]);
  }

  lemma CardStep(cards: seq<Flashcard>, i: nat)
    requires i < |cards|
    ensures AllTags(cards[..i + 1]) == AllTags(cards[..i]) + cards[i].tags[..|cards[i].tags|]
  {
    assert cards[..i + 1] == cards[..i] + [cards[i]];
    AllTagsAppend(cards[..i], cards[i]);
    assert cards[i].tags[..|cards[i].tags|] == cards[i].tags;
  }

  /** What the statistics promise about tags: the distribution's keys are the tags that
      some card carries, each counted once per occurrence (repeats within one card
      included), and the counts add up to the total length of the tag lists. */
  lemma DistributionSpec(cards: seq<Flashcard>)
    ensures forall t :: t in TagCounts(AllTags(cards)) <==> exists c :: c in cards && t in c.tags
    ensures forall t :: t in TagCounts(AllTags(cards)) ==> TagCounts(AllTags(cards))[t] == Count(AllTags(cards), t)
    ensures SumOver(TagCounts(AllTags(cards)), Dedup(AllTags(cards))) == |AllTags(cards)|
  {
    TagCountsSpec(AllTags(cards));
    TagCountsSum(AllTags(cards));
    forall t ensures t in AllTags(cards) <==> exists c :: c in cards && t in c.tags {
      AllTagsMembers(cards, t);
    }
  }
}
