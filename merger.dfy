/**
  The merger (`merge_m3us`): folds the sources' ordered dictionaries, in
  priority order, into one; a URL already merged is never overwritten, so
  the first source to contain a URL supplies its block.
 */
module Merger {
  import opened Options
  import opened OrderedMaps
  import opened Parser

  ghost predicate AllValid(sources: seq<SourceMapping>) {
    forall n :: 0 <= n < |sources| ==> sources[n].Valid()
  }

  /** Every source's items, source after source. */
  function AllItems(sources: seq<SourceMapping>): seq<(string, Block)>
    requires AllValid(sources)
    decreases |sources|
  {
    if |sources| == 0 then [] else sources[0].Items() + AllItems(sources[1..])
  }

  /** Every source's URLs, source after source, duplicates included. */
  function AllKeys(sources: seq<SourceMapping>): seq<string>
    decreases |sources|
  {
    if |sources| == 0 then [] else sources[0].keys + AllKeys(sources[1..])
  }

  /** What `merge_m3us` returns. */
  function Merge(sources: seq<SourceMapping>): (r: SourceMapping)
    requires AllValid(sources)
    ensures r.Valid()
  {
    PutAllIfAbsentValid(Empty(), AllItems(sources));
    Empty().PutAllIfAbsent(AllItems(sources))
  }

  /** The block of `url` in the earliest source that has it. */
  function Earliest(sources: seq<SourceMapping>, url: string): (r: Option<Block>)
    ensures r.Some? ==> exists n :: 0 <= n < |sources| && url in sources[n].values
                         && sources[n].values[url] == r.value
                         && forall m :: 0 <= m < n ==> url !in sources[m].values
    ensures r.None? <==> forall n :: 0 <= n < |sources| ==> url !in sources[n].values
    decreases |sources|
  {
    if |sources| == 0 then None
    else if url in sources[0].values then Some(sources[0].values[url])
    else
      var r := Earliest(sources[1..], url);
      assert forall n :: 1 <= n < |sources| ==> sources[1..][n - 1] == sources[n];
      r
  }

  lemma {:induction false} AllItemsAppend(a: seq<SourceMapping>, b: seq<SourceMapping>)
    requires AllValid(a) && AllValid(b)
    ensures AllValid(a + b)
    ensures AllItems(a + b) == AllItems(a) + AllItems(b)
    decreases |a|
  {
    if |a| == 0 {
      assert a + b == b;
    } else {
      assert (a + b)[1..] == a[1..] + b;
      AllItemsAppend(a[1..], b);
    }
  }

  lemma {:induction false} LookupAllItems(sources: seq<SourceMapping>, url: string)
    requires AllValid(sources)
    ensures Lookup(AllItems(sources), url) == Earliest(sources, url)
    decreases |sources|
  {
    if |sources| > 0 {
      LookupAppend(sources[0].Items(), AllItems(sources[1..]), url);
      LookupItems(sources[0], url);
      LookupAllItems(sources[1..], url);
    }
  }

  lemma KeysOfAppend(a: seq<(string, Block)>, b: seq<(string, Block)>)
    ensures KeysOf(a + b) == KeysOf(a) + KeysOf(b)
  {
  }

  lemma {:induction false} KeysOfAllItems(sources: seq<SourceMapping>)
    requires AllValid(sources)
    ensures KeysOf(AllItems(sources)) == AllKeys(sources)
    decreases |sources|
  {
    if |sources| > 0 {
      KeysOfAppend(sources[0].Items(), AllItems(sources[1..]));
      KeysOfAllItems(sources[1..]);
      assert KeysOf(sources[0].Items()) == sources[0].keys;
    }
  }

  /**
    First source wins: each merged URL carries the block of the earliest
    source that contains it, whatever later sources hold for it.
   */
  lemma MergeFirstWins(sources: seq<SourceMapping>, url: string)
    requires AllValid(sources)
    ensures Merge(sources).Get(url) == Earliest(sources, url)
  {
    PutAllIfAbsentGet(Empty(), AllItems(sources), url);
    LookupAllItems(sources, url);
  }

  /**
    Merged order: the sources' key orders concatenated in priority order,
    each URL kept at its first position and dropped wherever it recurs.
   */
  lemma MergeKeyOrder(sources: seq<SourceMapping>)
    requires AllValid(sources)
    ensures Merge(sources).keys == Dedup(AllKeys(sources), {})
  {
    var e := Empty<string, Block>();
    PutAllIfAbsentKeys(e, AllItems(sources));
    KeysOfAllItems(sources);
    assert e.values.Keys == {};
    assert e.keys + Dedup(AllKeys(sources), {}) == Dedup(AllKeys(sources), {});
  }

  /** `merge_m3us`: the nested loops that insert each source's entries in place. */
  method MergeM3us(sources: seq<SourceMapping>) returns (merged: SourceMapping)
    requires AllValid(sources)
    ensures merged == Merge(sources)
  {
    merged := Empty();
    for s := 0 to |sources|
      invariant merged == Empty().PutAllIfAbsent(AllItems(sources[..s]))
    {
      var entries := sources[s];
      ghost var before := merged;
      ghost var items := entries.Items();
      for t := 0 to |entries.keys|
        invariant merged == before.PutAllIfAbsent(items[..t])
      {
        var url := entries.keys[t];
        var block := entries.values[url];
        MergeStep(before, items, t);
        if url !in merged.values {
          merged := merged.Put(url, block);
        }
      }
      MergeSourceDone(sources, s);
    }
    assert sources[..|sources|] == sources;
  }

  lemma MergeStep(before: SourceMapping, items: seq<(string, Block)>, t: nat)
    requires t < |items|
    ensures before.PutAllIfAbsent(items[..t + 1])
         == before.PutAllIfAbsent(items[..t]).PutIfAbsent(items[t].0, items[t].1)
  {
    assert items[..t + 1] == items[..t] + [items[t]];
    PutAllIfAbsentAppend(before, items[..t], [items[t]]);
  }

  lemma MergeSourceDone(sources: seq<SourceMapping>, s: nat)
    requires AllValid(sources) && s < |sources|
    ensures Empty().PutAllIfAbsent(AllItems(sources[..s + 1]))
         == Empty().PutAllIfAbsent(AllItems(sources[..s])).PutAllIfAbsent(sources[s].Items()[..|sources[s].keys|])
  {
    var items := sources[s].Items();
    assert items[..|sources[s].keys|] == items;
    assert sources[..s + 1] == sources[..s] + [sources[s]];
    AllItemsAppend(sources[..s], [sources[s]]);
    assert AllItems([sources[s]]) == items;
    PutAllIfAbsentAppend(Empty(), AllItems(sources[..s]), items);
  }
}
