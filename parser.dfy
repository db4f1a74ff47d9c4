/**
  The block parser (`parse_m3u`): splits a playlist into lines and scans them
  with an index, grouping each `#EXTINF:` directive with the `#` property
  lines after it and the URL line that ends the block. Blocks whose group or
  title is excluded are skipped; bare URL lines become entries with an empty
  block; the first block seen for a URL is kept.

  `Entries` is the scan written as a recursive function: the (URL, block)
  pairs it offers, in order, before duplicates are dropped. `Parse` inserts
  them into an empty ordered dictionary, keeping the first block per URL.
  `ParseM3u` is the program's loop, proved to compute `Parse`.
 */
module Parser {
  import opened Options
  import opened Strings
  import opened OrderedMaps
  import opened Filters

  /** The lines stored for one URL: a directive and its property lines, or nothing. */
  type Block = seq<string>

  /** One source's playlist: URL -> block, in the order the URLs were first seen. */
  type SourceMapping = OrderedMap<string, Block>

  predicate IsDirective(line: string) {
    StartsWith(line, "#EXTINF:")
  }

  /** A `#` line that is not a directive: KODIPROP, EXTVLCOPT, ... */
  predicate IsProperty(line: string) {
    StartsWith(line, "#") && !IsDirective(line)
  }

  /** A line taken as a URL: not empty and not starting with `#`. */
  predicate IsUrl(line: string) {
    line != "" && !StartsWith(line, "#")
  }

  /** A line the skip loop steps over: it starts with `#` or is all whitespace. */
  predicate Skippable(line: string) {
    StartsWith(line, "#") || Strip(line) == ""
  }

  /** The end of the maximal run of skippable lines that starts at `i`. */
  function RunEnd(lines: seq<string>, i: nat): (r: nat)
    requires i <= |lines|
    ensures i <= r <= |lines|
    ensures forall t :: i <= t < r ==> Skippable(lines[t])
    ensures r < |lines| ==> !Skippable(lines[r])
    decreases |lines| - i
  {
    if i == |lines| || !Skippable(lines[i]) then i else RunEnd(lines, i + 1)
  }

  /**
    Where the scan resumes after an excluded directive at `k`: past the run of
    skippable lines after it and, when a line follows the run, past that line
    too (that line never starts with `#`, so the program's test for it always
    passes).
   */
  function ResumeAfterExcluded(lines: seq<string>, k: nat): (r: nat)
    requires k < |lines|
    ensures k < r <= |lines|
    ensures r == if RunEnd(lines, k + 1) < |lines| then RunEnd(lines, k + 1) + 1 else |lines|
  {
    var e := RunEnd(lines, k + 1);
    if e < |lines| && !StartsWith(lines[e], "#") then e + 1 else e
  }

  /** The end of the maximal run of property lines that starts at `i`. */
  function PropsEnd(lines: seq<string>, i: nat): (r: nat)
    requires i <= |lines|
    ensures i <= r <= |lines|
    ensures forall t :: i <= t < r ==> IsProperty(lines[t])
    ensures r < |lines| ==> !IsProperty(lines[r])
    decreases |lines| - i
  {
    if i == |lines| || !IsProperty(lines[i]) then i else PropsEnd(lines, i + 1)
  }

  /** The exclusion test the program applies to a directive: its group, then its title. */
  function Drops(ex: Exclusions): string -> bool {
    extinf => Excluded(extinf, ex)
  }

  /**
    The (URL, block) pairs the scan offers from index `i` on, duplicates
    included, for the exclusion test `drop`.
   */
  function Entries(lines: seq<string>, drop: string -> bool, i: nat): seq<(string, Block)>
    decreases |lines| + 1 - i
  {
    if i >= |lines| then []
    else if IsDirective(lines[i]) then
      if drop(lines[i]) then Entries(lines, drop, ResumeAfterExcluded(lines, i))
      else
        var j := PropsEnd(lines, i + 1);
        if j < |lines| && IsUrl(lines[j]) then [(lines[j], lines[i..j])] + Entries(lines, drop, j + 1)
        else Entries(lines, drop, j + 1)
    else if IsUrl(lines[i]) then [(lines[i], [])] + Entries(lines, drop, i + 1)
    else Entries(lines, drop, i + 1)
  }

  /** What `parse_m3u` returns for fetched content (`None` for a failed fetch). */
  function Parse(content: Option<string>, ex: Exclusions): (r: SourceMapping)
    ensures r.Valid()
  {
    if content.None? || content.value == "" then Empty()
    else
      var entries := Entries(Split(content.value), Drops(ex), 0);
      PutAllIfAbsentValid(Empty(), entries);
      Empty().PutAllIfAbsent(entries)
  }

  /** The block's lines are `lines[k..]` verbatim, and the URL is the very next line. */
  predicate BlockAt(lines: seq<string>, k: int, url: string, block: Block) {
    0 <= k && k + |block| < |lines| && lines[k..k + |block|] == block && lines[k + |block|] == url
  }

  /** A block the parser keeps: empty, or a directive that is not excluded followed by property lines. */
  predicate KeptBlock(block: Block, drop: string -> bool) {
    block == [] ||
    (IsDirective(block[0]) && !drop(block[0]) && forall n :: 1 <= n < |block| ==> IsProperty(block[n]))
  }

  /** An entry as the parser produces it: a URL key, a kept block, no line holding a newline. */
  predicate WellFormedEntry(url: string, block: Block, drop: string -> bool) {
    && IsUrl(url)
    && '\n' !in url
    && (forall n :: 0 <= n < |block| ==> '\n' !in block[n])
    && KeptBlock(block, drop)
  }

  ghost predicate FromInput(lines: seq<string>, drop: string -> bool, e: (string, Block)) {
    WellFormedEntry(e.0, e.1, drop) && exists k :: BlockAt(lines, k, e.0, e.1)
  }

  /** Every pair the scan offers is well formed and copied verbatim from the input. */
  lemma {:induction false} EntriesFromInput(lines: seq<string>, drop: string -> bool, i: nat)
    requires forall n :: 0 <= n < |lines| ==> '\n' !in lines[n]
    ensures forall e :: e in Entries(lines, drop, i) ==> FromInput(lines, drop, e)
    decreases |lines| + 1 - i
  {
    if i < |lines| {
      if IsDirective(lines[i]) {
        if drop(lines[i]) {
          EntriesFromInput(lines, drop, ResumeAfterExcluded(lines, i));
        } else {
          var j := PropsEnd(lines, i + 1);
          EntriesFromInput(lines, drop, j + 1);
          if j < |lines| && IsUrl(lines[j]) {
            var block := lines[i..j];
            assert BlockAt(lines, i, lines[j], block);
            assert forall n :: 1 <= n < |block| ==> block[n] == lines[i + n];
            assert KeptBlock(block, drop);
            assert FromInput(lines, drop, (lines[j], block));
          }
        }
      } else {
        EntriesFromInput(lines, drop, i + 1);
        if IsUrl(lines[i]) {
          assert BlockAt(lines, i, lines[i], []);
        }
      }
    }
  }

  /**
    Every entry of a parsed source is well formed (a URL key, a block that
    starts with a directive which is not excluded and goes on with property
    lines) and sits verbatim in the input, its URL on the line after its block.
   */
  lemma ParseSound(content: Option<string>, ex: Exclusions, url: string)
    requires url in Parse(content, ex).values
    ensures WellFormedEntry(url, Parse(content, ex).values[url], Drops(ex))
    ensures content.Some? && exists k :: BlockAt(Split(content.value), k, url, Parse(content, ex).values[url])
  {
    var lines := Split(content.value);
    var entries := Entries(lines, Drops(ex), 0);
    PutAllIfAbsentGet(Empty(), entries, url);
    EntriesFromInput(lines, Drops(ex), 0);
    var n :| FirstAt(entries, url, n) && entries[n].1 == Parse(content, ex).values[url];
    assert entries[n] in entries;
  }

  /**
    No kept block's directive, lower-cased, contains `group-title="g"` for an
    excluded group `g`, and no kept block's title contains an excluded
    language, ignoring case.
   */
  lemma ParseExcludes(content: Option<string>, ex: Exclusions, url: string)
    requires url in Parse(content, ex).values && Parse(content, ex).values[url] != []
    ensures var extinf := Parse(content, ex).values[url][0];
      && IsDirective(extinf)
      && (forall k :: 0 <= k < |ex.groups| ==> !Contains(Lower(extinf), GroupAttribute(ex.groups[k])))
      && (forall k :: 0 <= k < |ex.languages| ==> !Contains(Lower(Title(extinf)), ex.languages[k]))
  {
    ParseSound(content, ex, url);
    var extinf := Parse(content, ex).values[url][0];
    IsExcludedGroupExists(extinf, ex.groups);
    IsExcludedLanguageExists(Title(extinf), ex.languages);
  }

  /**
    Within one source the first block offered for a URL is the one kept,
    later ones never overwrite it, and URLs keep the order of their first
    appearance.
   */
  lemma ParseFirstWins(s: string, ex: Exclusions, url: string)
    ensures Parse(Some(s), ex).Get(url) == Lookup(Entries(Split(s), Drops(ex), 0), url)
    ensures Parse(Some(s), ex).keys == Dedup(KeysOf(Entries(Split(s), Drops(ex), 0)), {})
  {
    var entries := Entries(Split(s), Drops(ex), 0);
    var e := Empty<string, Block>();
    if s == "" {
      SplitSingle(s);
      EntriesAtOther(Split(s), Drops(ex), 0);
    }
    assert Parse(Some(s), ex) == e.PutAllIfAbsent(entries);
    PutAllIfAbsentGet(e, entries, url);
    PutAllIfAbsentKeys(e, entries);
    assert e.values.Keys == {};
    assert e.keys + Dedup(KeysOf(entries), {}) == Dedup(KeysOf(entries), {});
  }

  /** The skip loop of an excluded block: returns the index where the scan resumes. */
  method SkipBlock(lines: seq<string>, k: nat) returns (i: nat)
    requires k < |lines|
    ensures i == ResumeAfterExcluded(lines, k)
  {
    i := k + 1;
    while i < |lines| && (StartsWith(lines[i], "#") || Strip(lines[i]) == "")
      invariant k + 1 <= i <= |lines|
      invariant RunEnd(lines, i) == RunEnd(lines, k + 1)
      decreases |lines| - i
    {
      i := i + 1;
    }
    if i < |lines| && !StartsWith(lines[i], "#") {
      i := i + 1;
    }
  }

  /**
    The directive at `start` and the property lines right after it; `i` is
    the first line that is not a property line (or the end).
   */
  method CollectBlock(lines: seq<string>, start: nat) returns (block: Block, i: nat)
    requires start < |lines|
    ensures i == PropsEnd(lines, start + 1)
    ensures block == lines[start..i]
  {
    block := [lines[start]];
    i := start + 1;
    while i < |lines|
      invariant start < i <= |lines|
      invariant block == lines[start..i]
      invariant PropsEnd(lines, i) == PropsEnd(lines, start + 1)
      decreases |lines| - i
    {
      var nextLine := lines[i];
      if StartsWith(nextLine, "#") && !StartsWith(nextLine, "#EXTINF:") {
        block := block + [nextLine];
        i := i + 1;
      } else {
        break;
      }
    }
  }

  /**
    The loop body of `parse_m3u` at a directive: skip the block when its group
    or its title is excluded, else collect it and insert it, first-wins, under
    the URL that follows; the line after the properties is consumed either way.
    The entries still to come are the same before and after.
   */
  method ParseBlock(lines: seq<string>, ex: Exclusions, i: nat, entries: SourceMapping)
    returns (next: nat, entries': SourceMapping)
    requires i < |lines| && IsDirective(lines[i])
    ensures i < next <= |lines| + 1
    ensures next == if Excluded(lines[i], ex) then ResumeAfterExcluded(lines, i) else PropsEnd(lines, i + 1) + 1
    ensures var j := PropsEnd(lines, i + 1);
      entries' == if !Excluded(lines[i], ex) && j < |lines| && IsUrl(lines[j])
                  then entries.PutIfAbsent(lines[j], lines[i..j]) else entries
    ensures entries'.PutAllIfAbsent(Entries(lines, Drops(ex), next)) == entries.PutAllIfAbsent(Entries(lines, Drops(ex), i))
  {
    entries' := entries;
    var extinf := lines[i];
    var groupExcluded := CheckExcludedGroup(extinf, ex.groups);
    if groupExcluded {
      next := SkipBlock(lines, i);
      EntriesAtExcluded(lines, Drops(ex), i);
      return;
    }
    var title := Title(extinf);
    var languageExcluded := CheckExcludedLanguage(title, ex.languages);
    if languageExcluded {
      next := SkipBlock(lines, i);
      EntriesAtExcluded(lines, Drops(ex), i);
      return;
    }
    var block;
    block, next := CollectBlock(lines, i);
    EntriesAtKept(lines, Drops(ex), i);
    if next < |lines| {
      var url := lines[next];
      if url != "" && !StartsWith(url, "#") {
        AddStep(entries, url, block, Entries(lines, Drops(ex), next + 1));
        if url !in entries.values {
          entries' := entries.Put(url, block);
        }
        next := next + 1;
        return;
      }
    }
    next := next + 1;
  }

  /** `parse_m3u`: the scan over the lines, inserting into the ordered dictionary in place. */
  method ParseM3u(content: Option<string>, ex: Exclusions) returns (entries: SourceMapping)
    ensures entries == Parse(content, ex)
    ensures content.None? || content.value == "" ==> entries.keys == []
  {
    if content.None? || content.value == "" {
      return Empty();
    }
    var lines := Split(content.value);
    ghost var target := Empty<string, Block>().PutAllIfAbsent(Entries(lines, Drops(ex), 0));
    entries := Empty();
    var i := 0;
    while i < |lines|
      invariant i <= |lines| + 1
      invariant entries.PutAllIfAbsent(Entries(lines, Drops(ex), i)) == target
      decreases |lines| + 1 - i
    {
      var line := lines[i];
      if StartsWith(line, "#EXTINF:") {
        i, entries := ParseBlock(lines, ex, i, entries);
      } else {
        OtherLineStep(lines, Drops(ex), i, entries);
        if line != "" && !StartsWith(line, "#") {
          var url := line;
          if url !in entries.values {
            entries := entries.Put(url, []);
          }
        }
        i := i + 1;
      }
    }
  }

  /**
    A kept directive whose property lines are followed by another directive:
    the block has no URL and is dropped, and the second directive is consumed
    with it, before its own exclusion is ever checked; the scan goes on after it.
   */
  lemma KeptDirectiveConsumesNext(lines: seq<string>, drop: string -> bool, i: nat)
    requires i < |lines| && IsDirective(lines[i]) && !drop(lines[i])
    requires PropsEnd(lines, i + 1) < |lines| && IsDirective(lines[PropsEnd(lines, i + 1)])
    ensures Entries(lines, drop, i) == Entries(lines, drop, PropsEnd(lines, i + 1) + 1)
  {
    EntriesAtKept(lines, drop, i);
  }

  /** Property lines outside a block are passed over one by one: they offer nothing. */
  lemma {:induction false} PropertiesPassedOver(lines: seq<string>, drop: string -> bool, a: nat, b: nat)
    requires a <= b <= |lines|
    requires forall t :: a <= t < b ==> IsProperty(lines[t])
    ensures Entries(lines, drop, a) == Entries(lines, drop, b)
    decreases b - a
  {
    if a < b {
      EntriesAtOther(lines, drop, a);
      PropertiesPassedOver(lines, drop, a + 1, b);
    }
  }

  /**
    What the consumed directive leaves behind: its own property lines are
    passed over and the URL after them is offered as a plain entry with an
    empty block, whatever the exclusion test says of that directive.
   */
  lemma ConsumedDirectiveUrlKept(lines: seq<string>, drop: string -> bool, i: nat, j: nat, k: nat)
    requires i < |lines| && IsDirective(lines[i]) && !drop(lines[i])
    requires j == PropsEnd(lines, i + 1) && j < |lines| && IsDirective(lines[j])
    requires k == PropsEnd(lines, j + 1) && k < |lines| && IsUrl(lines[k])
    ensures Entries(lines, drop, i) == [(lines[k], [])] + Entries(lines, drop, k + 1)
  {
    KeptDirectiveConsumesNext(lines, drop, i);
    PropertiesPassedOver(lines, drop, j + 1, k);
    EntriesAtOther(lines, drop, k);
  }

  /** At a line that is not a directive: a URL line is offered with an empty block, any other line is passed over. */
  lemma OtherLineStep(lines: seq<string>, drop: string -> bool, i: nat, entries: SourceMapping)
    requires i < |lines| && !IsDirective(lines[i])
    ensures (if IsUrl(lines[i]) && lines[i] !in entries.values then entries.Put(lines[i], []) else entries)
              .PutAllIfAbsent(Entries(lines, drop, i + 1))
         == entries.PutAllIfAbsent(Entries(lines, drop, i))
  {
    EntriesAtOther(lines, drop, i);
    if IsUrl(lines[i]) {
      AddStep(entries, lines[i], [], Entries(lines, drop, i + 1));
    }
  }

  lemma EntriesAtExcluded(lines: seq<string>, drop: string -> bool, i: nat)
    requires i < |lines| && IsDirective(lines[i]) && drop(lines[i])
    ensures Entries(lines, drop, i) == Entries(lines, drop, ResumeAfterExcluded(lines, i))
  {
  }

  lemma EntriesAtKept(lines: seq<string>, drop: string -> bool, i: nat)
    requires i < |lines| && IsDirective(lines[i]) && !drop(lines[i])
    ensures var j := PropsEnd(lines, i + 1);
      Entries(lines, drop, i) ==
        if j < |lines| && IsUrl(lines[j]) then [(lines[j], lines[i..j])] + Entries(lines, drop, j + 1)
        else Entries(lines, drop, j + 1)
  {
  }

  lemma EntriesAtOther(lines: seq<string>, drop: string -> bool, i: nat)
    requires i < |lines| && !IsDirective(lines[i])
    ensures Entries(lines, drop, i) ==
      if IsUrl(lines[i]) then [(lines[i], [])] + Entries(lines, drop, i + 1) else Entries(lines, drop, i + 1)
  {
  }

  /** One step of the fold: offering a pair is `if url not in entries: entries[url] = block`. */
  lemma AddStep(entries: SourceMapping, url: string, block: Block, rest: seq<(string, Block)>)
    ensures entries.PutAllIfAbsent([(url, block)] + rest)
         == (if url !in entries.values then entries.Put(url, block) else entries).PutAllIfAbsent(rest)
  {
    assert ([(url, block)] + rest)[1..] == rest;
  }
}
