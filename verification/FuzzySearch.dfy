/** A search over the items of an index (packages/workspace-fs/src/fuzzy-scorer.ts,
    packages/workspace-fs/src/search.ts): every score goes through a cache that the whole search shares,
    whose key has the name and the description of an item with nothing between them. */
module FuzzySearch {
  import opened FuzzyScoreBounds
  import opened FuzzyItems
  import opened JsMap
  import opened Wrappers

  // The score of an item by itself.
  function OwnScore(lower: char -> char, item: Item, query: Query, scattered: bool): nat {
    if query.whole.normalized == "" || item.name == "" then 0 else QueryScore(lower, item, query, scattered)
  }

  function OwnTier(lower: char -> char, item: Item, query: Query, scattered: bool): Tier {
    if query.whole.normalized == "" || item.name == "" then NoMatch else QueryTier(lower, item, query, scattered)
  }

  // What the cache tells items apart by.
  function TextOf(item: Item): string {
    item.name + item.description
  }

  function CacheHash(item: Item, query: Query, scattered: bool): string {
    TextOf(item) + ((if scattered then "true" else "false") + query.whole.normalized)
  }

  // The first item that is cached under the label.
  function FirstLike(items: seq<Item>, text: string): Option<Item> {
    if items == [] then None
    else if items[0].name != "" && TextOf(items[0]) == text then Some(items[0])
    else FirstLike(items[1..], text)
  }

  // The score that an item gets in a search over the items: that of the first one like it.
  function ServedScore(lower: char -> char, items: seq<Item>, item: Item, query: Query, scattered: bool): nat {
    if item.name == "" then 0
    else
      var first := FirstLike(items, TextOf(item));
      OwnScore(lower, if first.Some? then first.value else item, query, scattered)
  }

  // What a search lists, in the order of the index.
  function Listed(lower: char -> char, items: seq<Item>, all: seq<Item>, query: Query, scattered: bool): seq<(Item, nat)> {
    if items == [] then []
    else
      var n := |items| - 1;
      var score := ServedScore(lower, all, items[n], query, scattered);
      Listed(lower, items[..n], all, query, scattered) + if score > 0 then [(items[n], score)] else []
  }

  lemma {:induction false} FirstLikeAppend(a: seq<Item>, b: seq<Item>, text: string)
    ensures FirstLike(a + b, text) == if FirstLike(a, text).Some? then FirstLike(a, text) else FirstLike(b, text)
  {
    if a == [] {
      assert a + b == b;
    } else {
      assert (a + b)[0] == a[0] && (a + b)[1..] == a[1..] + b;
      FirstLikeAppend(a[1..], b, text);
    }
  }

  lemma {:induction false} FirstLikeIsLike(items: seq<Item>, text: string)
    ensures var first := FirstLike(items, text);
      && (first.Some? ==> first.value in items && first.value.name != "" && TextOf(first.value) == text)
      && (forall k :: 0 <= k < |items| && items[k].name != "" && TextOf(items[k]) == text ==> first.Some?)
  {
    hide TextOf;
    if items == [] {
    } else {
      FirstLikeIsLike(items[1..], text);
      assert forall k :: 0 < k < |items| ==> items[k] == items[1..][k - 1];
    }
  }

  // An item looked up once more changes nothing for the others.
  lemma ServedAppend(lower: char -> char, items: seq<Item>, item: Item, more: seq<Item>, query: Query, scattered: bool)
    requires item in items
    ensures ServedScore(lower, items + more, item, query, scattered) == ServedScore(lower, items, item, query, scattered)
  {
    hide TextOf, OwnScore;
    FirstLikeAppend(items, more, TextOf(item));
    FirstLikeIsLike(items, TextOf(item));
    var k :| 0 <= k < |items| && items[k] == item;
  }

  lemma HashesAlike(a: Item, b: Item, query: Query, scattered: bool)
    ensures CacheHash(a, query, scattered) == CacheHash(b, query, scattered) <==> TextOf(a) == TextOf(b)
  {
    var rest := (if scattered then "true" else "false") + query.whole.normalized;
    var x, y := TextOf(a) + rest, TextOf(b) + rest;
    if x == y {
      assert |TextOf(a)| == |TextOf(b)|;
      assert x[..|TextOf(a)|] == TextOf(a) && y[..|TextOf(b)|] == TextOf(b);
    }
  }

  // ----- the search as it runs -----

  // The cache of one search.
  class ScorerCache {
    const lower: char -> char
    const query: Query
    const scattered: bool
    var cache: map<string, ItemScore>
    ghost var seen: seq<Item>   // the items that were looked up

    ghost predicate Valid()
      reads this
    {
      forall item: Item ::
        var hash, first := CacheHash(item, query, scattered), FirstLike(seen, TextOf(item));
        && (hash in cache <==> query.whole.normalized != "" && first.Some?)
        && (hash in cache ==> cache[hash].score == OwnScore(lower, first.value, query, scattered))
    }

    constructor (lower: char -> char, query: Query, scattered: bool)
      ensures Valid() && seen == [] && this.lower == lower && this.query == query && this.scattered == scattered
    {
      this.lower, this.query, this.scattered, cache, seen := lower, query, scattered, map[], [];
    }

    method ScoreItemFuzzy(item: Item) returns (r: ItemScore)
      requires Valid()
      modifies this
      ensures Valid() && seen == old(seen) + [item]
      ensures r.score == ServedScore(lower, seen, item, query, scattered)
    {
      hide QueryScore, TextOf, CacheHash;
      ghost var before := seen;
      forall text
        ensures FirstLike(before + [item], text) ==
                if FirstLike(before, text).Some? then FirstLike(before, text) else FirstLike([item], text)
      {
        FirstLikeAppend(before, [item], text);
      }
      OneLike(item);
      seen := before + [item];
      if query.whole.normalized == "" || item.name == "" {
        return NO_ITEM_SCORE;
      }
      var cacheHash := CacheHash(item, query, scattered);
      if cacheHash in cache {
        return cache[cacheHash];
      }
      r := DoScoreItemFuzzy(lower, item, query, scattered);
      cache := cache[cacheHash := r];
      forall other: Item
        ensures CacheHash(other, query, scattered) == cacheHash <==> TextOf(other) == TextOf(item)
      {
        HashesAlike(other, item, query, scattered);
      }
    }

    // The loop of a search: every item is scored, and those above 0 are listed.
    method Search(items: seq<Item>) returns (scored: seq<(Item, nat)>)
      requires Valid() && seen == []
      modifies this
      ensures Valid() && seen == items
      ensures scored == Listed(lower, items, items, query, scattered)
    {
      hide ServedScore;
      scored := [];
      for i := 0 to |items|
        invariant Valid() && seen == items[..i]
        invariant scored == Listed(lower, items[..i], items, query, scattered)
      {
        assert items[..i + 1] == items[..i] + [items[i]] && items[..i + 1][..i] == items[..i];
        assert items == items[..i + 1] + items[i + 1..];
        ServedAppend(lower, items[..i + 1], items[i], items[i + 1..], query, scattered);
        var itemScore := ScoreItemFuzzy(items[i]);
        if itemScore.score > 0 {
          scored := scored + [(items[i], itemScore.score)];
        }
      }
      assert items[..|items|] == items;
    }

    // The part of the comparison that goes by scores; `tie` is what the remaining rules say.
    method CompareItemsByFuzzyScore(a: Item, b: Item, tie: int) returns (order: int)
      requires Valid() && a in seen && b in seen
      modifies this
      ensures Valid() && old(seen) <= seen
      ensures order == CompareScores(ServedScore(lower, old(seen), a, query, scattered),
                                     ServedScore(lower, old(seen), b, query, scattered), tie)
    {
      hide ServedScore;
      ServedAppend(lower, seen, a, [a], query, scattered);
      ServedAppend(lower, seen, b, [a], query, scattered);
      ServedAppend(lower, seen + [a], b, [b], query, scattered);
      var itemScoreA := ScoreItemFuzzy(a);
      var itemScoreB := ScoreItemFuzzy(b);
      order := CompareScores(itemScoreA.score, itemScoreB.score, tie);
    }
  }

  lemma OneLike(item: Item)
    ensures forall text :: FirstLike([item], text) == if item.name != "" && TextOf(item) == text then Some(item) else None
  {
    assert [item][1..] == [];
  }

  // ----- which items get their own score -----

  ghost predicate AllOwn(lower: char -> char, items: seq<Item>, query: Query, scattered: bool) {
    forall k :: 0 <= k < |items| ==>
      ServedScore(lower, items, items[k], query, scattered) == OwnScore(lower, items[k], query, scattered)
  }

  // Two places whose items have a name, and the same text.
  predicate Alike(items: seq<Item>, j: int, k: int) {
    && 0 <= j < |items| && 0 <= k < |items| && items[j].name != "" && items[k].name != ""
    && TextOf(items[j]) == TextOf(items[k])
  }

  // What is served is the score of an item in the list with the same text.
  ghost predicate Served(lower: char -> char, items: seq<Item>, k: nat, query: Query, scattered: bool)
    requires k < |items|
  {
    exists j :: 0 <= j < |items| && items[j].name != "" && TextOf(items[j]) == TextOf(items[k]) &&
      ServedScore(lower, items, items[k], query, scattered) == OwnScore(lower, items[j], query, scattered)
  }

  lemma ServedFirst(lower: char -> char, items: seq<Item>, k: nat, query: Query, scattered: bool)
    requires k < |items| && items[k].name != ""
    ensures Served(lower, items, k, query, scattered)
  {
    hide TextOf, OwnScore;
    FirstLikeIsLike(items, TextOf(items[k]));
    var first := FirstLike(items, TextOf(items[k])).value;
    var j :| 0 <= j < |items| && items[j] == first;
  }

  // Items with the same text are served the same score.
  lemma ServedAlike(lower: char -> char, items: seq<Item>, a: Item, b: Item, query: Query, scattered: bool)
    requires a in items && b in items && a.name != "" && b.name != "" && TextOf(a) == TextOf(b)
    ensures ServedScore(lower, items, a, query, scattered) == ServedScore(lower, items, b, query, scattered)
  {
    hide TextOf, OwnScore;
    FirstLikeIsLike(items, TextOf(a));
    var k :| 0 <= k < |items| && items[k] == a;
  }

  ghost predicate SameWhereAlike(lower: char -> char, items: seq<Item>, query: Query, scattered: bool) {
    forall j, k :: Alike(items, j, k) ==>
      OwnScore(lower, items[j], query, scattered) == OwnScore(lower, items[k], query, scattered)
  }

  lemma OwnWhereAlike(lower: char -> char, items: seq<Item>, k: nat, query: Query, scattered: bool)
    requires k < |items| && SameWhereAlike(lower, items, query, scattered)
    ensures ServedScore(lower, items, items[k], query, scattered) == OwnScore(lower, items[k], query, scattered)
  {
    hide TextOf, QueryScore, FirstLike;
    if items[k].name != "" {
      ServedFirst(lower, items, k, query, scattered);
      hide ServedScore, OwnScore;
      var j :| 0 <= j < |items| && items[j].name != "" && TextOf(items[j]) == TextOf(items[k]) &&
        ServedScore(lower, items, items[k], query, scattered) == OwnScore(lower, items[j], query, scattered);
      assert Alike(items, j, k);
    }
  }

  /** Exactly when every item of a search gets its own score: items whose name and description make the same
      text must have the same score. */
  lemma OwnScoresIff(lower: char -> char, items: seq<Item>, query: Query, scattered: bool)
    ensures AllOwn(lower, items, query, scattered) <==>
            forall j, k :: Alike(items, j, k) ==>
              OwnScore(lower, items[j], query, scattered) == OwnScore(lower, items[k], query, scattered)
  {
    hide TextOf, OwnScore, ServedScore;
    if SameWhereAlike(lower, items, query, scattered) {
      forall k | 0 <= k < |items|
        ensures ServedScore(lower, items, items[k], query, scattered) == OwnScore(lower, items[k], query, scattered)
      {
        OwnWhereAlike(lower, items, k, query, scattered);
      }
    }
    if AllOwn(lower, items, query, scattered) {
      forall j, k | Alike(items, j, k)
        ensures OwnScore(lower, items[j], query, scattered) == OwnScore(lower, items[k], query, scattered)
      {
        ServedAlike(lower, items, items[j], items[k], query, scattered);
      }
    }
  }

  // No other item of the list has the text of this one.
  ghost predicate AloneIn(items: seq<Item>, item: Item) {
    item in items && forall other :: other in items && TextOf(other) == TextOf(item) ==> other == item
  }

  lemma AloneIsOwn(lower: char -> char, items: seq<Item>, item: Item, query: Query, scattered: bool)
    requires AloneIn(items, item)
    ensures ServedScore(lower, items, item, query, scattered) == OwnScore(lower, item, query, scattered)
  {
    hide TextOf, QueryScore;
    FirstLikeIsLike(items, TextOf(item));
    var k :| 0 <= k < |items| && items[k] == item;
  }

  /** Whatever the items are, for a query of one piece and at most 204 characters, of two items whose text no
      other item of the search has, the one in the better tier scores higher and sorts first: identity
      before label prefix before label before description before no match. */
  lemma BetterTierSortsFirst(lower: char -> char, items: seq<Item>, a: Item, b: Item, query: Query, scattered: bool, tie: int)
    requires |query.values| <= 1 && |query.whole.normalized| <= 204 && AloneIn(items, a) && AloneIn(items, b)
    requires OwnTier(lower, a, query, scattered).Rank() > OwnTier(lower, b, query, scattered).Rank()
    ensures var x, y := ServedScore(lower, items, a, query, scattered), ServedScore(lower, items, b, query, scattered);
      x > y && CompareScores(x, y, tie) == -1 && CompareScores(y, x, tie) == 1
  {
    hide ServedScore, AloneIn, QueryScore, QueryTier;
    AloneIsOwn(lower, items, a, query, scattered);
    AloneIsOwn(lower, items, b, query, scattered);
    if b.name == "" {
      TierScores(lower, a, query, scattered);
    } else {
      BetterTierScoresHigher(lower, a, b, query, scattered, tie);
    }
  }
}
