/**
  The program's driver (`main`) over already-fetched contents, and what the
  three stages guarantee together: the written playlist, parsed again,
  gives back exactly the merged dictionary that was written.
 */
module Pipeline {
  import opened Options
  import opened Strings
  import opened OrderedMaps
  import opened Filters
  import opened Parser
  import opened Merger
  import opened Renderer

  /** `if content:` — a fetch that succeeded with non-empty text. */
  predicate Loaded(content: Option<string>) {
    content.Some? && content.value != ""
  }

  /** The parsed sources `main` hands to the merger, in source order; failed or empty fetches are skipped. */
  function LoadedSources(fetched: seq<Option<string>>, ex: Exclusions): (sources: seq<SourceMapping>)
    ensures AllValid(sources)
    ensures |sources| == 0 <==> forall n :: 0 <= n < |fetched| ==> !Loaded(fetched[n])
    decreases |fetched|
  {
    if |fetched| == 0 then []
    else
      var init := fetched[..|fetched| - 1];
      var last := fetched[|fetched| - 1];
      assert forall n :: 0 <= n < |init| ==> init[n] == fetched[n];
      LoadedSources(init, ex) + (if Loaded(last) then [Parse(last, ex)] else [])
  }

  /** `main` without the network and the file: `None` when no source loaded, else the text written. */
  method Run(fetched: seq<Option<string>>, ex: Exclusions, epg: string) returns (output: Option<string>)
    ensures output.None? <==> forall n :: 0 <= n < |fetched| ==> !Loaded(fetched[n])
    ensures output.Some? ==> output.value == Render(Merge(LoadedSources(fetched, ex)), epg)
  {
    var sourceEntries: seq<SourceMapping> := [];
    for n := 0 to |fetched|
      invariant sourceEntries == LoadedSources(fetched[..n], ex)
    {
      assert fetched[..n + 1][..n] == fetched[..n];
      var content := fetched[n];
      if content.Some? && content.value != "" {
        var entries := ParseM3u(content, ex);
        sourceEntries := sourceEntries + [entries];
      }
    }
    assert fetched[..|fetched|] == fetched;
    if |sourceEntries| == 0 {
      return None;
    }
    var merged := MergeM3us(sourceEntries);
    var text := SaveMerged(merged, epg);
    return Some(text);
  }

  ghost predicate WellFormedMapping(m: SourceMapping, drop: string -> bool) {
    forall url :: url in m.values ==> WellFormedEntry(url, m.values[url], drop)
  }

  lemma ParseWellFormed(content: Option<string>, ex: Exclusions)
    ensures WellFormedMapping(Parse(content, ex), Drops(ex))
  {
    forall url | url in Parse(content, ex).values
      ensures WellFormedEntry(url, Parse(content, ex).values[url], Drops(ex))
    {
      ParseSound(content, ex, url);
    }
  }

  lemma {:induction false} LoadedSourcesWellFormed(fetched: seq<Option<string>>, ex: Exclusions)
    ensures forall n :: 0 <= n < |LoadedSources(fetched, ex)| ==> WellFormedMapping(LoadedSources(fetched, ex)[n], Drops(ex))
    decreases |fetched|
  {
    if |fetched| > 0 {
      var last := fetched[|fetched| - 1];
      LoadedSourcesWellFormed(fetched[..|fetched| - 1], ex);
      ParseWellFormed(last, ex);
    }
  }

  /** Merging keeps every block a source had, so merged entries are as well formed as the sources'. */
  lemma MergeWellFormed(sources: seq<SourceMapping>, drop: string -> bool)
    requires AllValid(sources)
    requires forall n :: 0 <= n < |sources| ==> WellFormedMapping(sources[n], drop)
    ensures WellFormedMapping(Merge(sources), drop)
  {
    forall url | url in Merge(sources).values
      ensures WellFormedEntry(url, Merge(sources).values[url], drop)
    {
      MergeFirstWins(sources, url);
    }
  }

  lemma UrlIsNotDirective(line: string)
    requires IsUrl(line)
    ensures !IsDirective(line) && !IsProperty(line)
  {
  }

  lemma HeaderIsSkipped(epg: string)
    requires '\n' !in epg
    ensures !IsDirective(Header(epg)) && !IsUrl(Header(epg))
    ensures '\n' !in Header(epg)
  {
    var h := Header(epg);
    assert h[4] == 'M';
    assert h[..1] == "#";
    assert h == "#EXTM3U url-tvg=\"" + epg + "\"";
  }

  lemma {:induction false} BodyLinesNoNewline(items: seq<(string, Block)>, drop: string -> bool)
    requires AllWellFormed(items, drop)
    ensures forall n :: 0 <= n < |BodyLines(items)| ==> '\n' !in BodyLines(items)[n]
    decreases |items|
  {
    if |items| > 0 {
      BodyLinesNoNewline(items[1..], drop);
    }
  }

  /** A run of property lines from `i` that stops at line `j` ends at `j`. */
  lemma PropsEndAt(lines: seq<string>, i: nat, j: nat)
    requires i <= j < |lines|
    requires forall t :: i <= t < j ==> IsProperty(lines[t])
    requires !IsProperty(lines[j])
    ensures PropsEnd(lines, i) == j
  {
  }

  /** One written entry, read back: the scan offers it and resumes on the line after its URL. */
  lemma EntryStep(lines: seq<string>, drop: string -> bool, i: nat, url: string, block: Block)
    requires i + |block| < |lines|
    requires lines[i..i + |block|] == block && lines[i + |block|] == url
    requires WellFormedEntry(url, block, drop)
    ensures Entries(lines, drop, i) == [(url, block)] + Entries(lines, drop, i + |block| + 1)
  {
    UrlIsNotDirective(url);
    if |block| == 0 {
      EntriesAtOther(lines, drop, i);
    } else {
      DirectiveAt(lines, drop, i, block);
      EntriesAtKept(lines, drop, i);
    }
  }

  /** A kept block written at `i`: a directive the scan keeps, whose properties run up to the URL. */
  lemma DirectiveAt(lines: seq<string>, drop: string -> bool, i: nat, block: Block)
    requires 0 < |block| && i + |block| < |lines|
    requires lines[i..i + |block|] == block && !IsProperty(lines[i + |block|])
    requires KeptBlock(block, drop)
    ensures IsDirective(lines[i]) && !drop(lines[i])
    ensures PropsEnd(lines, i + 1) == i + |block|
    ensures lines[i..PropsEnd(lines, i + 1)] == block
  {
    var j := i + |block|;
    assert lines[i] == block[0];
    forall t | i + 1 <= t < j
      ensures IsProperty(lines[t])
    {
      assert lines[t] == block[t - i];
    }
    PropsEndAt(lines, i + 1, j);
  }

  /** Where the first written entry's lines and the rest of the text lie. */
  lemma BodySplit(lines: seq<string>, i: nat, items: seq<(string, Block)>)
    requires i <= |lines| && |items| > 0
    requires lines[i..] == BodyLines(items) + [""]
    ensures var j := i + |items[0].1|;
      && j < |lines|
      && lines[i..j] == items[0].1
      && lines[j] == items[0].0
      && lines[j + 1..] == BodyLines(items[1..]) + [""]
  {
    var (url, block) := items[0];
    var j := i + |block|;
    var tail := lines[i..];
    assert tail == block + [url] + (BodyLines(items[1..]) + [""]);
    assert lines[i..j] == tail[..|block|];
    assert lines[j] == tail[|block|];
    assert lines[j + 1..] == tail[|block| + 1..];
  }

  /** Scanning the written entries, well formed, offers exactly those entries, in order. */
  lemma {:induction false} EntriesOfBody(lines: seq<string>, drop: string -> bool, i: nat, items: seq<(string, Block)>)
    requires i <= |lines|
    requires lines[i..] == BodyLines(items) + [""]
    requires AllWellFormed(items, drop)
    ensures Entries(lines, drop, i) == items
    decreases |items|
  {
    if |items| == 0 {
      EntriesAtEnd(lines, drop, i);
    } else {
      var k := FirstEntryRead(lines, drop, i, items);
      EntriesOfBody(lines, drop, k, items[1..]);
      assert items == [items[0]] + items[1..];
    }
  }

  /** After the last entry only the empty piece after the final newline is left, and it offers nothing. */
  lemma EntriesAtEnd(lines: seq<string>, drop: string -> bool, i: nat)
    requires i <= |lines|
    requires lines[i..] == BodyLines([]) + [""]
    ensures Entries(lines, drop, i) == []
  {
    assert lines[i..] == [""];
    assert lines[i] == lines[i..][0];
    EntriesAtOther(lines, drop, i);
  }

  /** The first written entry is offered first, and the scan goes on at line `k`, where the others start. */
  lemma FirstEntryRead(lines: seq<string>, drop: string -> bool, i: nat, items: seq<(string, Block)>) returns (k: nat)
    requires i <= |lines| && |items| > 0
    requires lines[i..] == BodyLines(items) + [""]
    requires WellFormedEntry(items[0].0, items[0].1, drop)
    ensures k <= |lines| && lines[k..] == BodyLines(items[1..]) + [""]
    ensures Entries(lines, drop, i) == [items[0]] + Entries(lines, drop, k)
  {
    var (url, block) := items[0];
    BodySplit(lines, i, items);
    EntryStep(lines, drop, i, url, block);
    k := i + |block| + 1;
  }


  /** Every entry of `items` is well formed, stated one entry at a time. */
  predicate AllWellFormed(items: seq<(string, Block)>, drop: string -> bool)
    decreases |items|
  {
    |items| == 0 || (WellFormedEntry(items[0].0, items[0].1, drop) && AllWellFormed(items[1..], drop))
  }

  lemma {:induction false} AllWellFormedOf(items: seq<(string, Block)>, drop: string -> bool)
    requires forall n :: 0 <= n < |items| ==> WellFormedEntry(items[n].0, items[n].1, drop)
    ensures AllWellFormed(items, drop)
    decreases |items|
  {
    if |items| > 0 {
      assert forall n :: 0 <= n < |items| - 1 ==> items[1..][n] == items[n + 1];
      AllWellFormedOf(items[1..], drop);
    }
  }

  lemma ItemsWellFormed(m: SourceMapping, drop: string -> bool)
    requires m.Valid() && WellFormedMapping(m, drop)
    ensures AllWellFormed(m.Items(), drop)
  {
    forall n | 0 <= n < |m.Items()|
      ensures WellFormedEntry(m.Items()[n].0, m.Items()[n].1, drop)
    {
      assert m.keys[n] in m.values;
    }
    AllWellFormedOf(m.Items(), drop);
  }

  /** No output line holds a newline, so the lines can be read back from the text. */
  lemma OutputNoNewline(m: SourceMapping, drop: string -> bool, epg: string)
    requires m.Valid() && WellFormedMapping(m, drop)
    requires '\n' !in epg
    ensures forall n :: 0 <= n < |OutputLines(m, epg)| ==> '\n' !in OutputLines(m, epg)[n]
  {
    var items := m.Items();
    ItemsWellFormed(m, drop);
    BodyLinesNoNewline(items, drop);
    HeaderIsSkipped(epg);
    var out := OutputLines(m, epg);
    forall n | 0 <= n < |out|
      ensures '\n' !in out[n]
    {
      if n > 0 {
        assert out[n] == BodyLines(items)[n - 1];
      }
    }
  }

  /** The scan over the header, the written entries and the final empty piece. */
  lemma ScanOutput(lines: seq<string>, drop: string -> bool, epg: string, items: seq<(string, Block)>)
    requires lines == [Header(epg)] + BodyLines(items) + [""]
    requires '\n' !in epg
    requires AllWellFormed(items, drop)
    ensures Entries(lines, drop, 0) == items
  {
    HeaderIsSkipped(epg);
    assert lines[1..] == BodyLines(items) + [""];
    SkipHeader(lines, drop, items);
  }

  lemma SkipHeader(lines: seq<string>, drop: string -> bool, items: seq<(string, Block)>)
    requires 0 < |lines| && !IsDirective(lines[0]) && !IsUrl(lines[0])
    requires lines[1..] == BodyLines(items) + [""]
    requires AllWellFormed(items, drop)
    ensures Entries(lines, drop, 0) == items
  {
    EntriesAtOther(lines, drop, 0);
    EntriesOfBody(lines, drop, 1, items);
  }

  /** The rendered text, split back into lines and scanned, offers exactly the dictionary's items, in order. */
  lemma RenderedEntries(m: SourceMapping, drop: string -> bool, epg: string)
    requires m.Valid() && WellFormedMapping(m, drop)
    requires '\n' !in epg
    ensures Entries(Split(Render(m, epg)), drop, 0) == m.Items()
  {
    OutputNoNewline(m, drop, epg);
    RenderedLines(m, epg);
    ItemsWellFormed(m, drop);
    ScanOutput(Split(Render(m, epg)), drop, epg, m.Items());
  }

  /**
    Parsing what the renderer writes gives back the dictionary it was given,
    keys, order and blocks, whenever every entry is one the parser could
    have produced.
   */
  lemma ParseRender(m: SourceMapping, ex: Exclusions, epg: string)
    requires m.Valid() && WellFormedMapping(m, Drops(ex))
    requires '\n' !in epg
    ensures Parse(Some(Render(m, epg)), ex) == m
  {
    RenderedEntries(m, Drops(ex), epg);
    var out := OutputLines(m, epg);
    assert Render(m, epg) == out[0] + "\n" + Written(out[1..]);
    FromItems(m);
  }

  /**
    The whole run: when some source loaded, the file written, parsed again,
    is exactly the merged dictionary.
   */
  lemma RunReparses(fetched: seq<Option<string>>, ex: Exclusions, epg: string)
    requires '\n' !in epg
    ensures var merged := Merge(LoadedSources(fetched, ex));
      Parse(Some(Render(merged, epg)), ex) == merged
  {
    var sources := LoadedSources(fetched, ex);
    LoadedSourcesWellFormed(fetched, ex);
    MergeWellFormed(sources, Drops(ex));
    ParseRender(Merge(sources), ex, epg);
  }

  /** The round trip for the program as configured: its exclusion lists and its EPG URL. */
  lemma ConfiguredRunReparses(fetched: seq<Option<string>>)
    ensures var merged := Merge(LoadedSources(fetched, Configured));
      Parse(Some(Render(merged, EpgUrl)), Configured) == merged
  {
    EpgUrlOneLine();
    RunReparses(fetched, Configured, EpgUrl);
  }
}
