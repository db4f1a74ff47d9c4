/**
  The exclusion rules applied to an `#EXTINF:` directive: its group attribute
  against the excluded groups, and its title against the excluded languages.
 */
module Filters {
  import opened Options
  import opened Strings

  /** The configured exclusion lists; the program compares them with lower-cased text. */
  datatype Exclusions = Exclusions(groups: seq<string>, languages: seq<string>)

  const ExcludedGroups: seq<string> := ["devotional", "music", "educational"]

  const ExcludeLanguages: seq<string> :=
    ["tamil", "telugu", "oriya", "gujarati", "kannada", "malayalam", "bhojpuri", "punjabi", "marathi"]

  /** The exclusions the program is configured with. */
  const Configured: Exclusions := Exclusions(ExcludedGroups, ExcludeLanguages)

  /** The literal text searched for: `group-title="<g>"` */
  function GroupAttribute(g: string): string {
    "group-title=\"" + g + "\""
  }

  /** The loop over the groups, on the already lower-cased line. */
  function AnyGroupIn(lowerLine: string, groups: seq<string>): bool
    decreases |groups|
  {
    |groups| > 0 && (Contains(lowerLine, GroupAttribute(groups[0])) || AnyGroupIn(lowerLine, groups[1..]))
  }

  lemma {:induction false} AnyGroupInExists(lowerLine: string, groups: seq<string>)
    ensures AnyGroupIn(lowerLine, groups) <==> exists k :: 0 <= k < |groups| && Contains(lowerLine, GroupAttribute(groups[k]))
    decreases |groups|
  {
    if |groups| > 0 {
      AnyGroupInExists(lowerLine, groups[1..]);
      assert forall k :: 1 <= k < |groups| ==> groups[1..][k - 1] == groups[k];
    }
  }

  /** `is_excluded_group`: the directive line, lower-cased, contains `group-title="g"` for some excluded group `g`. */
  function IsExcludedGroup(extinf: string, groups: seq<string>): bool {
    AnyGroupIn(Lower(extinf), groups)
  }

  lemma IsExcludedGroupExists(extinf: string, groups: seq<string>)
    ensures IsExcludedGroup(extinf, groups) <==> exists k :: 0 <= k < |groups| && Contains(Lower(extinf), GroupAttribute(groups[k]))
  {
    AnyGroupInExists(Lower(extinf), groups);
  }

  /** `is_excluded_group` as the program runs it: lower-case once, then return at the first group found. */
  method CheckExcludedGroup(extinf: string, groups: seq<string>) returns (excluded: bool)
    ensures excluded <==> exists k :: 0 <= k < |groups| && Contains(Lower(extinf), GroupAttribute(groups[k]))
    ensures excluded == IsExcludedGroup(extinf, groups)
  {
    IsExcludedGroupExists(extinf, groups);
    var lowerLine := Lower(extinf);
    for n := 0 to |groups|
      invariant forall k :: 0 <= k < n ==> !Contains(lowerLine, GroupAttribute(groups[k]))
    {
      if Contains(lowerLine, GroupAttribute(groups[n])) {
        return true;
      }
    }
    return false;
  }

  /** The loop over the languages, on the already lower-cased title. */
  function AnyLanguageIn(lowerTitle: string, languages: seq<string>): bool
    decreases |languages|
  {
    |languages| > 0 && (Contains(lowerTitle, languages[0]) || AnyLanguageIn(lowerTitle, languages[1..]))
  }

  lemma {:induction false} AnyLanguageInExists(lowerTitle: string, languages: seq<string>)
    ensures AnyLanguageIn(lowerTitle, languages) <==> exists k :: 0 <= k < |languages| && Contains(lowerTitle, languages[k])
    decreases |languages|
  {
    if |languages| > 0 {
      AnyLanguageInExists(lowerTitle, languages[1..]);
      assert forall k :: 1 <= k < |languages| ==> languages[1..][k - 1] == languages[k];
    }
  }

  /** `is_excluded_language`: the title, lower-cased, contains some excluded language as a substring. */
  function IsExcludedLanguage(title: string, languages: seq<string>): bool {
    AnyLanguageIn(Lower(title), languages)
  }

  lemma IsExcludedLanguageExists(title: string, languages: seq<string>)
    ensures IsExcludedLanguage(title, languages) <==> exists k :: 0 <= k < |languages| && Contains(Lower(title), languages[k])
  {
    AnyLanguageInExists(Lower(title), languages);
  }

  /** `is_excluded_language` as the program runs it: lower-case once, then return at the first language found. */
  method CheckExcludedLanguage(title: string, languages: seq<string>) returns (excluded: bool)
    ensures excluded <==> exists k :: 0 <= k < |languages| && Contains(Lower(title), languages[k])
    ensures excluded == IsExcludedLanguage(title, languages)
  {
    IsExcludedLanguageExists(title, languages);
    var lowerTitle := Lower(title);
    for n := 0 to |languages|
      invariant forall k :: 0 <= k < n ==> !Contains(lowerTitle, languages[k])
    {
      if Contains(lowerTitle, languages[n]) {
        return true;
      }
    }
    return false;
  }

  /** The index of the first `c` in `s` at or after `from`. */
  function IndexOf(s: string, c: char, from: nat): (r: Option<nat>)
    requires from <= |s|
    ensures r.Some? ==> from <= r.value < |s| && s[r.value] == c
    decreases |s| - from
  {
    if from == |s| then None
    else if s[from] == c then Some(from)
    else IndexOf(s, c, from + 1)
  }

  /** `IndexOf` finds the first `c` at or after `from`, and finds none only when there is none. */
  lemma {:induction false} IndexOfFirst(s: string, c: char, from: nat)
    requires from <= |s|
    ensures IndexOf(s, c, from).Some? ==> forall q :: from <= q < IndexOf(s, c, from).value ==> s[q] != c
    ensures IndexOf(s, c, from).None? ==> forall q :: from <= q < |s| ==> s[q] != c
    decreases |s| - from
  {
    if from < |s| && s[from] != c {
      IndexOfFirst(s, c, from + 1);
    }
  }

  /**
    Where `re.search(r',(.+)$', s)` matches: the first comma that has at
    least one character after it. Lines never contain a newline, so `.`
    matches every character and `$` is the end of the line.
   */
  function TitleMatch(s: string): (r: Option<nat>)
    ensures r.Some? ==> r.value + 1 < |s| && s[r.value] == ','
  {
    match IndexOf(s, ',', 0)
    case Some(p) => if p + 1 < |s| then Some(p) else None
    case None => None
  }

  /** The match is at the first comma, and there is none exactly when no comma has a character after it. */
  lemma TitleMatchFirstComma(s: string)
    ensures TitleMatch(s).Some? ==> forall q :: 0 <= q < TitleMatch(s).value ==> s[q] != ','
    ensures TitleMatch(s).None? <==> forall q :: 0 <= q < |s| - 1 ==> s[q] != ','
  {
    IndexOfFirst(s, ',', 0);
  }

  /** The title: the captured group of the match, stripped; empty when there is no match. */
  function Title(extinf: string): string {
    match TitleMatch(extinf)
    case Some(p) => Strip(extinf[p + 1..])
    case None => ""
  }

  /** The first comma with a character after it is where the title starts. */
  lemma TitleAfterFirstComma(extinf: string, p: nat)
    requires p < |extinf| - 1 && extinf[p] == ','
    requires forall q :: 0 <= q < p ==> extinf[q] != ','
    ensures Title(extinf) == Strip(extinf[p + 1..])
  {
    TitleMatchFirstComma(extinf);
    assert TitleMatch(extinf) == Some(p);
  }

  /** A line whose only comma, if any, is its last character has an empty title. */
  lemma TitleWithoutComma(extinf: string)
    requires forall q :: 0 <= q < |extinf| - 1 ==> extinf[q] != ','
    ensures Title(extinf) == ""
  {
    TitleMatchFirstComma(extinf);
  }

  /** The two checks the parser makes, in its order: the group first, then the title's language. */
  predicate Excluded(extinf: string, ex: Exclusions) {
    IsExcludedGroup(extinf, ex.groups) || IsExcludedLanguage(Title(extinf), ex.languages)
  }
}
