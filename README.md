# merge_m3u in Dafny

A model of `merge_m3u.py`, a merger of M3U/IPTV playlists. The model covers four stages:

1. **The block parser** (`parse_m3u`).
   - It splits a playlist on newlines.
   - It groups each `#EXTINF:` directive with the `#` property lines after it and the URL line that ends the block.
   - It drops a block when its directive carries an excluded `group-title` or its title names an excluded language.
   - It keeps bare URL lines as entries with an empty block.
   - It keeps the first block seen for each URL.
2. **The merger** (`merge_m3us`). It folds the sources' ordered dictionaries in priority order. The first source to hold a URL supplies its block.
3. **The renderer** (the text `save_merged` writes). It writes an `#EXTM3U url-tvg="…"` header, then each entry's block lines verbatim and its URL, one line each.
4. **The driver** (`main`). It runs over contents that were already fetched.
   - Failed or empty fetches are skipped.
   - Nothing is written when no source loaded.

## How the model is built

The modules follow the program's stages:

| module | what it holds |
|---|---|
| `Options` | The `Option` type. |
| `Strings` | ASCII lower-casing, `strip`, `split('\n')`. |
| `OrderedMaps` | An insertion-ordered dictionary: a key sequence plus a map. `Put` is `d[k] = v`; `PutIfAbsent` is `if k not in d: d[k] = v`. |
| `Filters` | The two exclusion tests and the title regex. |
| `Parser` | The block parser. |
| `Merger` | The merger. |
| `Renderer` | The renderer. |
| `Pipeline` | The driver, and the end-to-end round trip. |

Every loop of the program is a method with its invariants, proved against a specification function:

| specification function | what it is |
|---|---|
| `Parser.Entries` | The scan written as recursion. It gives the (URL, block) pairs offered, in order, duplicates included. |
| `Parser.Parse` | Those pairs inserted first-wins into an empty dictionary. |
| `Merger.Merge` | The same insertion over every source's items, source after source. |
| `Renderer.Render` | The text that gets written. |

The properties are then proved about these functions. The strongest is `Pipeline.RunReparses`: the file written by a run, parsed again, gives back exactly the merged dictionary (keys, order and blocks).

The model follows the code where the code differs from how the program's behaviour is usually described:

- **Title.** The title is taken after the **first** comma that has a character after it, then stripped. That is what `re.search(r',(.+)$', …)` matches, although the comment above it says "last comma".
- **Group test.** The group check is a substring test for `group-title="<g>"` on the whole lower-cased directive line. It is not an exact comparison of the extracted attribute value. The program's `get_group_title` helper is never called.
- **Resuming after an excluded block.** The skip loop steps over every `#` or blank line, including later `#EXTINF:` directives. The line it stops at never starts with `#`, so the second test of that line always passes. `Parser.ResumeAfterExcluded` states this.
- **A kept block with no URL.** Suppose a kept directive is followed, after its property lines, by another `#EXTINF:` line.
  - The block is discarded, and the second directive is consumed with it without its exclusion ever being checked (`Parser.KeptDirectiveConsumesNext`).
  - The second directive's property lines are then passed over one by one. The URL after them is offered as a plain entry with an empty block, whatever the exclusion test says of that directive (`Parser.ConsumedDirectiveUrlKept`).
  - So a channel whose group or language is excluded can still reach the output, without its metadata.

## Model

| member | source | states |
|---|---|---|
| Filters.IsExcludedGroupExists | merge_m3u.py:48-54 | A directive is group-excluded exactly when its lower-cased text contains `group-title="g"` for some configured group `g`. |
| Filters.CheckExcludedGroup | merge_m3u.py:48-54 | The early-return loop answers true exactly when some configured group's attribute occurs in the lower-cased line. |
| Filters.IsExcludedLanguageExists | merge_m3u.py:56-62 | A title is language-excluded exactly when its lower-cased text contains some configured language as a substring. |
| Filters.CheckExcludedLanguage | merge_m3u.py:56-62 | The early-return loop answers true exactly when some configured language occurs in the lower-cased title. |
| Filters.TitleMatchFirstComma | merge_m3u.py:92 | The regex matches at the first comma. It fails exactly when no comma has a character after it. |
| Filters.TitleAfterFirstComma | merge_m3u.py:91-93 | The title is the stripped text after the first comma that is not the last character. |
| Filters.TitleWithoutComma | merge_m3u.py:92-93 | A directive with no comma before its last character has the empty title. |
| Strings.StripSpec | merge_m3u.py:93 | `Strip` removes exactly the leading and trailing whitespace. Its result is empty exactly when the line is all whitespace. |
| Strings.JoinSplit | merge_m3u.py:71 | Splitting on newlines loses nothing: joining the pieces with newlines gives back the text. |
| Strings.SplitJoin | merge_m3u.py:71 | Newline-free lines joined with newlines split back into the same lines. |
| OrderedMaps.OrderedMap.Put | merge_m3u.py:121 | Assignment stores the value under the key and leaves other keys alone. A new key is appended to the order; an existing key keeps its place. |
| OrderedMaps.PutAllIfAbsentGet | merge_m3u.py:120-121 | After first-wins insertion of a sequence of pairs, a key maps to its old value if present, else to its first value in the sequence. |
| OrderedMaps.PutAllIfAbsentKeys | merge_m3u.py:120-121 | First-wins insertion appends the new keys in order of first appearance, skipping keys already present and repeats. |
| Parser.RunEnd | merge_m3u.py:85-86 | Ends the maximal run of lines that start with `#` or are blank. |
| Parser.ResumeAfterExcluded | merge_m3u.py:84-89 | The scan resumes after the excluded directive's run, and one line further when a line follows it. That line never starts with `#`. |
| Parser.SkipBlock | merge_m3u.py:98-102 | The skip loop returns the resume index of `ResumeAfterExcluded`. |
| Parser.PropsEnd | merge_m3u.py:108-114 | Ends the maximal run of property lines: `#` lines that are not directives. |
| Parser.CollectBlock | merge_m3u.py:105-114 | The collected block is the input lines from the directive up to the first non-property line, verbatim. That line is returned. |
| Parser.ParseBlock | merge_m3u.py:78-126 | One directive step. An excluded directive (group, then title) resumes at `ResumeAfterExcluded` and inserts nothing. A kept one resumes one line past its property lines, and inserts its block first-wins under that line when it is a URL. The pairs still to be inserted are unchanged. |
| Parser.OtherLineStep | merge_m3u.py:127-135 | A URL line not yet present is inserted with an empty block. Any other non-directive line changes nothing. |
| Parser.ParseM3u | merge_m3u.py:64-137 | The scan loop terminates and returns exactly `Parse` of the content. Missing or empty content gives an empty dictionary. |
| Parser.EntriesFromInput | merge_m3u.py:105-131 | Every pair the scan offers is well formed and sits verbatim in the input, its URL on the line right after its block. |
| Parser.ParseSound | merge_m3u.py:105-131 | Every parsed entry is well formed and copied from the input. Its key is a non-empty line not starting with `#`. Its block is empty, or a kept directive followed by property lines. Its URL is the line right after the block. |
| Parser.ParseExcludes | merge_m3u.py:78-103 | No kept directive contains an excluded group's attribute, and no kept title contains an excluded language, ignoring case. |
| Parser.ParseFirstWins | merge_m3u.py:118-131 | Within a source each URL keeps its first offered block. Keys keep the order of first appearance. |
| Parser.KeptDirectiveConsumesNext | merge_m3u.py:105-126 | A kept directive whose property lines are followed by another directive consumes both, with no exclusion check on the second. |
| Parser.PropertiesPassedOver | merge_m3u.py:134-135 | Property lines outside a block offer nothing: the scan steps over them. |
| Parser.ConsumedDirectiveUrlKept | merge_m3u.py:105-133 | After a directive consumed that way, the URL following its property lines is offered with an empty block, whatever its exclusions. |
| Merger.Earliest | merge_m3u.py:143-147 | The block from the earliest source holding the URL, or none exactly when no source holds it. |
| Merger.MergeFirstWins | merge_m3u.py:139-148 | Each merged URL carries the block of the earliest source that contains it. |
| Merger.MergeKeyOrder | merge_m3u.py:139-148 | The merged key order is the sources' key orders concatenated, each key kept at its first occurrence. |
| Merger.MergeM3us | merge_m3u.py:139-153 | The nested insertion loops compute `Merge` of the sources. |
| Renderer.RenderedLines | merge_m3u.py:158-162 | The output, split into lines, is the header, then each entry's block lines and its URL in merged order, then the empty piece after the final newline. |
| Renderer.SaveMerged | merge_m3u.py:155-163 | The header and nested writing loops produce exactly `Render` of the merged dictionary. |
| Renderer.EpgUrlOneLine | merge_m3u.py:32 | The configured EPG URL holds no newline, so the header is one line. |
| Pipeline.LoadedSources | merge_m3u.py:168-177 | The parsed sources are valid. There are none exactly when every fetch failed or was empty. |
| Pipeline.Run | merge_m3u.py:165-185 | There is no output exactly when no source loaded. Otherwise the output is the rendering of the merge of the loaded sources in order. |
| Pipeline.ParseWellFormed | merge_m3u.py:105-131 | Every entry of a parsed source is one the parser could produce. |
| Pipeline.MergeWellFormed | merge_m3u.py:145-147 | Merging keeps only blocks the sources had, so well-formedness carries over. |
| Pipeline.ParseRender | merge_m3u.py:155-162 | Parsing the rendered text of a dictionary of well-formed entries gives back that dictionary, with keys, order and blocks. |
| Pipeline.RunReparses | merge_m3u.py:165-185 | The file a run writes, parsed again with the same exclusions, is exactly the merged dictionary. |
| Pipeline.ConfiguredRunReparses | merge_m3u.py:26-32 | The same round trip for the program's own group and language lists and its EPG URL, with no condition left. |

## Left out

- `fetch_m3u` and the network are not modelled. The driver takes each source's fetched content as an `Option<string>`, where `None` is a failed fetch.
- Opening and writing `merged.m3u` is not modelled. `Renderer.SaveMerged` returns the text that would be written.
- All `print` calls and the two exclusion counters are left out, because they only feed logging. So are the `[:30]`/`[:50]` truncations in the log messages.
- `Strings.Lower`: only ASCII letters are lower-cased. Python's Unicode `str.lower()` also maps other letters.
- `Strings.Strip`: only ASCII whitespace is removed. Python's Unicode `str.strip()` removes more.
- Python's `re` module is not modelled. The one pattern the parser uses, `,(.+)$`, is hand-coded as `Filters.TitleMatch` for lines without newlines.
- `get_group_title` is left out, because nothing calls it.
- The display names that `main` derives for its sources are left out. The name is only a dictionary key whose insertion order is the source order, so the model keeps a sequence.
- The `SOURCES` list is left out, since fetching is not modelled. The EPG URL is passed as a parameter, with its configured value in `Renderer.EpgUrl`.
- `Pipeline.ParseRender` and `Pipeline.RunReparses` take the EPG URL as a parameter and require it to hold no newline. `Pipeline.ConfiguredRunReparses` discharges that for the configured URL.
