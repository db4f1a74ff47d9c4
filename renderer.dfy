/**
  The renderer (the text `save_merged` writes): a fixed `#EXTM3U` header
  naming the EPG, then for every merged entry, in order, its block's lines
  verbatim and its URL, each line followed by a newline.
 */
module Renderer {
  import opened Strings
  import opened OrderedMaps
  import opened Parser

  /** The EPG reference written into the header: the host, then the guide's path. */
  const EpgUrl: string := "https://raw.githubusercontent.com" + "/ibyb007/myepg/main/epg.xml.gz"

  /** The configured EPG reference fits on the header line. */
  lemma EpgUrlOneLine()
    ensures '\n' !in EpgUrl
  {
  }

  function Header(epg: string): string {
    "#EXTM3U url-tvg=\"" + epg + "\""
  }

  /** The lines written for the entries: each block, then its URL. */
  function BodyLines(items: seq<(string, Block)>): seq<string>
    decreases |items|
  {
    if |items| == 0 then [] else items[0].1 + [items[0].0] + BodyLines(items[1..])
  }

  /** Every line of the output file, in order. */
  function OutputLines(merged: SourceMapping, epg: string): seq<string>
    requires merged.Valid()
  {
    [Header(epg)] + BodyLines(merged.Items())
  }

  /** The text produced by writing each line followed by a newline. */
  function Written(lines: seq<string>): string
    decreases |lines|
  {
    if |lines| == 0 then "" else lines[0] + "\n" + Written(lines[1..])
  }

  /** The whole text of the output file. */
  function Render(merged: SourceMapping, epg: string): string
    requires merged.Valid()
  {
    Written(OutputLines(merged, epg))
  }

  lemma {:induction false} WrittenAppend(a: seq<string>, b: seq<string>)
    ensures Written(a + b) == Written(a) + Written(b)
    decreases |a|
  {
    if |a| == 0 {
      assert a + b == b;
    } else {
      assert (a + b)[1..] == a[1..] + b;
      WrittenAppend(a[1..], b);
    }
  }

  lemma {:induction false} BodyLinesAppend(a: seq<(string, Block)>, b: seq<(string, Block)>)
    ensures BodyLines(a + b) == BodyLines(a) + BodyLines(b)
    decreases |a|
  {
    if |a| == 0 {
      assert a + b == b;
    } else {
      assert (a + b)[1..] == a[1..] + b;
      BodyLinesAppend(a[1..], b);
    }
  }

  /** Writing lines each followed by a newline is joining them with one more, empty, line. */
  lemma {:induction false} WrittenIsJoin(lines: seq<string>)
    ensures Written(lines) == Join(lines + [""])
    decreases |lines|
  {
    if |lines| > 0 {
      WrittenIsJoin(lines[1..]);
      assert (lines + [""])[1..] == lines[1..] + [""];
    }
  }

  /**
    The output read back line by line is the header, then each entry's block
    lines verbatim followed by its URL, in the merged order, then the empty
    piece after the final newline.
   */
  lemma RenderedLines(merged: SourceMapping, epg: string)
    requires merged.Valid()
    requires forall n :: 0 <= n < |OutputLines(merged, epg)| ==> '\n' !in OutputLines(merged, epg)[n]
    ensures Split(Render(merged, epg)) == OutputLines(merged, epg) + [""]
  {
    var lines := OutputLines(merged, epg);
    WrittenIsJoin(lines);
    SplitJoin(lines + [""]);
  }

  /** `save_merged`: writes the header, then each block's lines and the URL. */
  method SaveMerged(merged: SourceMapping, epg: string) returns (text: string)
    requires merged.Valid()
    ensures text == Render(merged, epg)
  {
    ghost var items := merged.Items();
    text := Header(epg) + "\n";
    assert items[..0] == [];
    for t := 0 to |merged.keys|
      invariant text == Written([Header(epg)] + BodyLines(items[..t]))
    {
      var url := merged.keys[t];
      var block := merged.values[url];
      ghost var before := [Header(epg)] + BodyLines(items[..t]);
      assert before + block[..0] == before;
      for b := 0 to |block|
        invariant text == Written(before + block[..b])
      {
        WrittenStep(before + block[..b], block[b]);
        assert before + block[..b + 1] == (before + block[..b]) + [block[b]];
        text := text + block[b] + "\n";
      }
      assert block[..|block|] == block;
      assert text == Written(before + block);
      WrittenStep(before + block, url);
      EntryWritten(items, t);
      assert items[t] == (url, block);
      ghost var after := [Header(epg)] + BodyLines(items[..t + 1]);
      assert after == before + block + [url];
      text := text + url + "\n";
      assert text == Written(after);
    }
    assert items[..|merged.keys|] == items;
  }

  lemma WrittenStep(lines: seq<string>, line: string)
    ensures Written(lines + [line]) == Written(lines) + line + "\n"
  {
    WrittenAppend(lines, [line]);
    assert Written([line]) == line + "\n" + Written([]);
  }

  lemma EntryWritten(items: seq<(string, Block)>, t: nat)
    requires t < |items|
    ensures BodyLines(items[..t + 1]) == BodyLines(items[..t]) + items[t].1 + [items[t].0]
  {
    assert items[..t + 1] == items[..t] + [items[t]];
    BodyLinesAppend(items[..t], [items[t]]);
    assert BodyLines([items[t]]) == items[t].1 + [items[t].0] + BodyLines([]);
  }
}
