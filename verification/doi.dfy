/**
 * `extract_doi_from_url`: three fixed regular expressions tried in priority order,
 * each with `re.search` (leftmost match), the first that matches giving its group 1.
 */
module DoiExtraction {
  import opened Wrappers
  import opened PyStr

  /** The patterns, in the order they are tried. */
  datatype Pattern =
    | DoiOrg       // doi\.org/([^/\s]+/[^/\s]+)
    | DoiColon     // doi:([^/\s]+/[^/\s]+)
    | BareNumeric  // ([0-9]+\.[0-9]+/[^/\s]+)

  const Patterns: seq<Pattern> := [DoiOrg, DoiColon, BareNumeric]

  /** The literal text before group 1. */
  function Marker(pat: Pattern): string {
    match pat
    case DoiOrg => "doi.org/"
    case DoiColon => "doi:"
    case BareNumeric => ""
  }

  /** `[^/\s]` */
  predicate IsSegmentChar(c: char) {
    c != '/' && !IsSpace(c)
  }

  // ---------------------------------------------------------------- the languages of group 1

  /** Every character of `s[lo..hi]` is of class `cls`. */
  predicate AllIn(s: string, lo: nat, hi: nat, cls: char -> bool)
    requires lo <= hi <= |s|
  {
    forall j :: lo <= j < hi ==> cls(s[j])
  }

  /** `s[a..e]` is in `[^/\s]+/[^/\s]+`: one slash with non-empty text free of slashes and whitespace on both sides. */
  predicate IsDoiAt(s: string, a: nat, e: nat)
    requires a <= e <= |s|
  {
    exists k :: a < k && k + 1 < e && s[k] == '/' && AllIn(s, a, k, IsSegmentChar) && AllIn(s, k + 1, e, IsSegmentChar)
  }

  /** `s[a..e]` is in `[0-9]+\.[0-9]+/[^/\s]+`. */
  predicate IsNumericDoiAt(s: string, a: nat, e: nat)
    requires a <= e <= |s|
  {
    exists i, k :: a < i && i + 1 < k && k + 1 < e && s[i] == '.' && s[k] == '/'
                   && AllIn(s, a, i, IsDigit) && AllIn(s, i + 1, k, IsDigit) && AllIn(s, k + 1, e, IsSegmentChar)
  }

  /** The DOI shape of a whole string. */
  predicate IsDoi(g: string) {
    IsDoiAt(g, 0, |g|)
  }

  /** `s[a..e]` is in the language of group 1 of `pat`. */
  predicate InGroup(pat: Pattern, s: string, a: nat, e: nat)
    requires a <= e <= |s|
  {
    if pat == BareNumeric then IsNumericDoiAt(s, a, e) else IsDoiAt(s, a, e)
  }

  /** Every group of the third pattern is also of the shape of the first two. */
  lemma NumericDoiIsDoi(s: string, a: nat, e: nat)
    requires a <= e <= |s| && IsNumericDoiAt(s, a, e)
    ensures IsDoiAt(s, a, e)
  {
    var i, k :| a < i && i + 1 < k && k + 1 < e && s[i] == '.' && s[k] == '/'
                && AllIn(s, a, i, IsDigit) && AllIn(s, i + 1, k, IsDigit) && AllIn(s, k + 1, e, IsSegmentChar);
    assert AllIn(s, a, k, IsSegmentChar);
  }

  /** The DOI shape of a piece of a string is that of the piece on its own. */
  lemma DoiOfSlice(s: string, a: nat, e: nat)
    requires a <= e <= |s| && IsDoiAt(s, a, e)
    ensures IsDoi(s[a..e])
  {
    var g := s[a..e];
    var k :| a < k && k + 1 < e && s[k] == '/' && AllIn(s, a, k, IsSegmentChar) && AllIn(s, k + 1, e, IsSegmentChar);
    assert g[k - a] == '/';
    assert AllIn(g, 0, k - a, IsSegmentChar) by {
      forall j | 0 <= j < k - a ensures IsSegmentChar(g[j]) { assert g[j] == s[a + j]; }
    }
    assert AllIn(g, k - a + 1, |g|, IsSegmentChar) by {
      forall j | k - a + 1 <= j < |g| ensures IsSegmentChar(g[j]) { assert g[j] == s[a + j]; }
    }
  }

  // ---------------------------------------------------------------- the scanner

  /** The end of the longest run of `cls` characters starting at `i`. */
  function RunEnd(s: string, i: nat, cls: char -> bool): (j: nat)
    requires i <= |s|
    ensures i <= j <= |s|
    ensures AllIn(s, i, j, cls)
    ensures j == |s| || !cls(s[j])
    decreases |s| - i
  {
    if i < |s| && cls(s[i]) then RunEnd(s, i + 1, cls) else i
  }

  /** A run of `cls` characters from `i` to `j` ends no later than `RunEnd`; it ends there if it cannot go on. */
  lemma RunEndBounds(s: string, i: nat, j: nat, cls: char -> bool)
    requires i <= j <= |s| && AllIn(s, i, j, cls)
    ensures j <= RunEnd(s, i, cls)
    ensures j == |s| || !cls(s[j]) ==> RunEnd(s, i, cls) == j
  {
  }

  /** The pattern's marker occurs at `p`. */
  predicate Opens(s: string, pat: Pattern, p: nat) {
    p + |Marker(pat)| <= |s| && s[p..p + |Marker(pat)|] == Marker(pat)
  }

  /**
   * Where the match of `pat` starting at `p` ends, if there is one. Group 1 starts right
   * after the marker. Each `+` runs over a class that excludes the character that
   * follows it, so backtracking never helps and every greedy run is maximal.
   */
  function MatchAt(s: string, pat: Pattern, p: nat): (r: Option<nat>)
    requires p <= |s|
    ensures r.Some? ==> Opens(s, pat, p) && p + |Marker(pat)| <= r.value <= |s|
  {
    if !Opens(s, pat, p) then None
    else
      var a := p + |Marker(pat)|;
      if pat == BareNumeric then
        var e1 := RunEnd(s, a, IsDigit);
        if e1 == a || e1 == |s| || s[e1] != '.' then None
        else
          var e2 := RunEnd(s, e1 + 1, IsDigit);
          if e2 == e1 + 1 || e2 == |s| || s[e2] != '/' then None
          else
            var e3 := RunEnd(s, e2 + 1, IsSegmentChar);
            if e3 == e2 + 1 then None else Some(e3)
      else
        var e1 := RunEnd(s, a, IsSegmentChar);
        if e1 == a || e1 == |s| || s[e1] != '/' then None
        else
          var e2 := RunEnd(s, e1 + 1, IsSegmentChar);
          if e2 == e1 + 1 then None else Some(e2)
  }

  /** Any `[^/\s]+/[^/\s]+` at `a` ends inside the span the scanner finds. */
  lemma DoiSpan(s: string, a: nat, e: nat)
    requires a <= e <= |s| && IsDoiAt(s, a, e)
    ensures var e1 := RunEnd(s, a, IsSegmentChar);
            a < e1 && e1 + 1 < e && s[e1] == '/' && e <= RunEnd(s, e1 + 1, IsSegmentChar)
  {
    var k :| a < k && k + 1 < e && s[k] == '/' && AllIn(s, a, k, IsSegmentChar) && AllIn(s, k + 1, e, IsSegmentChar);
    RunEndBounds(s, a, k, IsSegmentChar);
    RunEndBounds(s, k + 1, e, IsSegmentChar);
  }

  /** Any `[0-9]+\.[0-9]+/[^/\s]+` at `a` ends inside the span the scanner finds. */
  lemma NumericDoiSpan(s: string, a: nat, e: nat) returns (i: nat, k: nat)
    requires a <= e <= |s| && IsNumericDoiAt(s, a, e)
    ensures a < i && i + 1 < k && k + 1 < e && s[i] == '.' && s[k] == '/'
    ensures RunEnd(s, a, IsDigit) == i && RunEnd(s, i + 1, IsDigit) == k
    ensures e <= RunEnd(s, k + 1, IsSegmentChar)
  {
    i, k :| a < i && i + 1 < k && k + 1 < e && s[i] == '.' && s[k] == '/'
            && AllIn(s, a, i, IsDigit) && AllIn(s, i + 1, k, IsDigit) && AllIn(s, k + 1, e, IsSegmentChar);
    RunEndBounds(s, a, i, IsDigit);
    RunEndBounds(s, i + 1, k, IsDigit);
    RunEndBounds(s, k + 1, e, IsSegmentChar);
  }

  /** No string of the group's language starts at `a`. */
  predicate NoGroupAt(s: string, pat: Pattern, a: nat)
    requires a <= |s|
  {
    forall e :: a <= e <= |s| ==> !InGroup(pat, s, a, e)
  }

  /** `s[a..e]` is in the group's language and is the longest such string at `a`. */
  predicate LongestGroup(s: string, pat: Pattern, a: nat, e: nat)
    requires a <= e <= |s|
  {
    InGroup(pat, s, a, e) && forall e' :: e < e' <= |s| ==> !InGroup(pat, s, a, e')
  }

  /**
   * The scanner is the regular expression: at `p` it finds the marker followed by the
   * longest string of the group's language, and reports no match exactly when the
   * marker is missing or no such string follows it.
   */
  lemma MatchAtIsLongestMatch(s: string, pat: Pattern, p: nat)
    requires p <= |s|
    ensures MatchAt(s, pat, p).Some? ==> LongestGroup(s, pat, p + |Marker(pat)|, MatchAt(s, pat, p).value)
    ensures MatchAt(s, pat, p).None? ==> !Opens(s, pat, p) || NoGroupAt(s, pat, p + |Marker(pat)|)
  {
    if Opens(s, pat, p) {
      if pat == BareNumeric {
        NumericMatchAt(s, p);
      } else {
        SlashMatchAt(s, pat, p);
      }
    }
  }

  lemma SlashMatchAt(s: string, pat: Pattern, p: nat)
    requires p <= |s| && pat != BareNumeric && Opens(s, pat, p)
    ensures MatchAt(s, pat, p).Some? ==> LongestGroup(s, pat, p + |Marker(pat)|, MatchAt(s, pat, p).value)
    ensures MatchAt(s, pat, p).None? ==> NoGroupAt(s, pat, p + |Marker(pat)|)
  {
    var a := p + |Marker(pat)|;
    forall e' | a <= e' <= |s| && IsDoiAt(s, a, e')
      ensures MatchAt(s, pat, p).Some? && e' <= MatchAt(s, pat, p).value
    {
      DoiSpan(s, a, e');
    }
    if MatchAt(s, pat, p).Some? {
      var e1 := RunEnd(s, a, IsSegmentChar);
      assert IsDoiAt(s, a, RunEnd(s, e1 + 1, IsSegmentChar));
    }
  }

  lemma NumericMatchAt(s: string, p: nat)
    requires p <= |s|
    ensures MatchAt(s, BareNumeric, p).Some? ==> LongestGroup(s, BareNumeric, p, MatchAt(s, BareNumeric, p).value)
    ensures MatchAt(s, BareNumeric, p).None? ==> NoGroupAt(s, BareNumeric, p)
  {
    assert Opens(s, BareNumeric, p);
    forall e' | p <= e' <= |s| && IsNumericDoiAt(s, p, e')
      ensures MatchAt(s, BareNumeric, p).Some? && e' <= MatchAt(s, BareNumeric, p).value
    {
      var i, k := NumericDoiSpan(s, p, e');
    }
    if MatchAt(s, BareNumeric, p).Some? {
      var e1 := RunEnd(s, p, IsDigit);
      var e2 := RunEnd(s, e1 + 1, IsDigit);
      assert IsNumericDoiAt(s, p, RunEnd(s, e2 + 1, IsSegmentChar));
    }
  }

  /** `re.search`: the leftmost position from `from` on where `pat` matches. */
  function FirstMatch(s: string, pat: Pattern, from: nat): (r: Option<nat>)
    requires from <= |s|
    ensures r.Some? ==> from <= r.value <= |s| && MatchAt(s, pat, r.value).Some?
    ensures r.Some? ==> forall q :: from <= q < r.value ==> MatchAt(s, pat, q).None?
    ensures r.None? ==> forall q :: from <= q <= |s| ==> MatchAt(s, pat, q).None?
    decreases |s| - from
  {
    if MatchAt(s, pat, from).Some? then Some(from)
    else if from == |s| then None
    else FirstMatch(s, pat, from + 1)
  }

  /** The leftmost matching position is the one `re.search` reports. */
  lemma {:induction false} FirstMatchIsLeftmost(s: string, pat: Pattern, from: nat, p: nat)
    requires from <= p <= |s| && MatchAt(s, pat, p).Some?
    requires forall q :: from <= q < p ==> MatchAt(s, pat, q).None?
    ensures FirstMatch(s, pat, from) == Some(p)
    decreases p - from
  {
    if from < p {
      FirstMatchIsLeftmost(s, pat, from + 1, p);
    }
  }

  /** `match.group(1)` of `re.search(pat, s)`, if it matches. */
  function Search(s: string, pat: Pattern): Option<string> {
    match FirstMatch(s, pat, 0)
    case None => None
    case Some(p) => Some(s[p + |Marker(pat)|..MatchAt(s, pat, p).value])
  }

  /** The group of the first pattern in `pats` that matches. */
  function FirstGroup(url: string, pats: seq<Pattern>): Option<string>
    decreases |pats|
  {
    if pats == [] then None
    else
      match Search(url, pats[0])
      case Some(g) => Some(g)
      case None => FirstGroup(url, pats[1..])
  }

  /** What `extract_doi_from_url` returns. */
  function DoiOf(url: string): Option<string> {
    FirstGroup(url, Patterns)
  }

  /** `extract_doi_from_url`: try each pattern in turn and return the first group found. */
  method ExtractDoiFromUrl(url: string) returns (doi: Option<string>)
    ensures doi == DoiOf(url)
  {
    var patterns := Patterns;
    for i := 0 to |patterns|
      invariant FirstGroup(url, patterns[i..]) == DoiOf(url)
    {
      var m := Search(url, patterns[i]);
      if m.Some? {
        return m;
      }
      assert patterns[i..][1..] == patterns[i + 1..];
    }
    return None;
  }

  /** `d` occurs in `url`. */
  predicate Occurs(d: string, url: string) {
    exists i, j :: 0 <= i <= j <= |url| && url[i..j] == d
  }

  /** First match wins: the three patterns are tried in their fixed order. */
  lemma DoiOfCases(url: string)
    ensures DoiOf(url) == if Search(url, DoiOrg).Some? then Search(url, DoiOrg)
                          else if Search(url, DoiColon).Some? then Search(url, DoiColon)
                          else Search(url, BareNumeric)
  {
    assert Patterns[1..] == [DoiColon, BareNumeric];
    assert Patterns[1..][1..] == [BareNumeric];
    assert Patterns[1..][1..][1..] == [];
  }

  /** A found DOI is a piece of the URL with one slash and non-empty text on both sides. */
  lemma DoiOfShape(url: string)
    requires DoiOf(url).Some?
    ensures IsDoi(DoiOf(url).value) && Occurs(DoiOf(url).value, url)
  {
    DoiOfCases(url);
    var pat := if Search(url, DoiOrg).Some? then DoiOrg
               else if Search(url, DoiColon).Some? then DoiColon else BareNumeric;
    assert Search(url, pat) == DoiOf(url);
    var p := FirstMatch(url, pat, 0).value;
    var a, e := p + |Marker(pat)|, MatchAt(url, pat, p).value;
    MatchAtIsLongestMatch(url, pat, p);
    if pat == BareNumeric {
      NumericDoiIsDoi(url, a, e);
    }
    DoiOfSlice(url, a, e);
    assert url[a..e] == DoiOf(url).value;
  }

  /** No DOI is found exactly when none of the three patterns matches anywhere in the URL. */
  lemma DoiOfNone(url: string)
    ensures DoiOf(url).None? <==> forall pat, q :: pat in Patterns && 0 <= q <= |url| ==> MatchAt(url, pat, q).None?
  {
    DoiOfCases(url);
    if DoiOf(url).None? {
    } else {
      var pat := if Search(url, DoiOrg).Some? then DoiOrg
                 else if Search(url, DoiColon).Some? then DoiColon else BareNumeric;
      assert Search(url, pat).Some?;
      var q := FirstMatch(url, pat, 0).value;
      assert MatchAt(url, pat, q).Some?;
    }
  }

  /** A marker cannot open where its first character is missing. */
  lemma NotOpensAt(s: string, pat: Pattern, p: nat)
    requires p < |s| && Marker(pat) != [] && s[p] != Marker(pat)[0]
    ensures !Opens(s, pat, p)
  {
    if p + |Marker(pat)| <= |s| {
      assert s[p..p + |Marker(pat)|][0] == s[p];
    }
  }

  /** A resolver link `https://doi.org/<prefix>/<suffix>` gives back `<prefix>/<suffix>`. */
  lemma DoiOfResolverLink(prefix: string, suffix: string)
    requires prefix != [] && AllIn(prefix, 0, |prefix|, IsSegmentChar)
    requires suffix != [] && AllIn(suffix, 0, |suffix|, IsSegmentChar)
    ensures DoiOf("https://doi.org/" + prefix + "/" + suffix) == Some(prefix + "/" + suffix)
  {
    var url := "https://doi.org/" + prefix + "/" + suffix;
    ResolverLinkSearch(url, prefix, suffix);
    DoiOfCases(url);
  }

  /** In a resolver link, `re.search` with the first pattern finds the whole DOI. */
  lemma ResolverLinkSearch(url: string, prefix: string, suffix: string)
    requires prefix != [] && AllIn(prefix, 0, |prefix|, IsSegmentChar)
    requires suffix != [] && AllIn(suffix, 0, |suffix|, IsSegmentChar)
    requires url == "https://doi.org/" + prefix + "/" + suffix
    ensures Search(url, DoiOrg) == Some(prefix + "/" + suffix)
  {
    ResolverLinkFirstMatch(url, prefix, suffix);
    ResolverLinkMatch(url, prefix, suffix);
    assert |Marker(DoiOrg)| == 8;
    assert Search(url, DoiOrg) == Some(url[16..|url|]);
    assert url[16..|url|] == prefix + "/" + suffix;
  }

  /** The first pattern first matches a resolver link where "doi.org/" starts. */
  lemma ResolverLinkFirstMatch(url: string, prefix: string, suffix: string)
    requires prefix != [] && AllIn(prefix, 0, |prefix|, IsSegmentChar)
    requires suffix != [] && AllIn(suffix, 0, |suffix|, IsSegmentChar)
    requires url == "https://doi.org/" + prefix + "/" + suffix
    ensures FirstMatch(url, DoiOrg, 0) == Some(8)
  {
    forall q | 0 <= q < 8 ensures MatchAt(url, DoiOrg, q).None? {
      NotOpensAt(url, DoiOrg, q);
    }
    ResolverLinkMatch(url, prefix, suffix);
    FirstMatchIsLeftmost(url, DoiOrg, 0, 8);
  }

  /** In a resolver link the first pattern matches right after the scheme, up to the end. */
  lemma ResolverLinkMatch(url: string, prefix: string, suffix: string)
    requires prefix != [] && AllIn(prefix, 0, |prefix|, IsSegmentChar)
    requires suffix != [] && AllIn(suffix, 0, |suffix|, IsSegmentChar)
    requires url == "https://doi.org/" + prefix + "/" + suffix
    ensures MatchAt(url, DoiOrg, 8) == Some(|url|)
  {
    var a := 16;
    assert url[8..16] == "doi.org/";
    assert Opens(url, DoiOrg, 8);
    assert AllIn(url, a, a + |prefix|, IsSegmentChar) by {
      forall j | a <= j < a + |prefix| ensures IsSegmentChar(url[j]) { assert url[j] == prefix[j - a]; }
    }
    RunEndBounds(url, a, a + |prefix|, IsSegmentChar);
    assert url[a + |prefix|] == '/';
    assert AllIn(url, a + |prefix| + 1, |url|, IsSegmentChar) by {
      forall j | a + |prefix| + 1 <= j < |url| ensures IsSegmentChar(url[j]) { assert url[j] == suffix[j - a - |prefix| - 1]; }
    }
    RunEndBounds(url, a + |prefix| + 1, |url|, IsSegmentChar);
  }

  // ---------------------------------------------------------------- the other URL forms

  /** A group that reaches the end of the text is the whole match: the greedy runs cannot stop short. */
  lemma GroupToEnd(s: string, pat: Pattern, p: nat)
    requires p <= |s| && Opens(s, pat, p) && InGroup(pat, s, p + |Marker(pat)|, |s|)
    ensures MatchAt(s, pat, p) == Some(|s|)
  {
    MatchAtIsLongestMatch(s, pat, p);
  }

  /** `s[a..]` spelled `prefix/suffix` is in `[^/\s]+/[^/\s]+`. */
  lemma DoiTail(s: string, a: nat, prefix: string, suffix: string)
    requires prefix != [] && AllIn(prefix, 0, |prefix|, IsSegmentChar)
    requires suffix != [] && AllIn(suffix, 0, |suffix|, IsSegmentChar)
    requires a <= |s| && s[a..] == prefix + "/" + suffix
    ensures IsDoiAt(s, a, |s|)
  {
    var k := a + |prefix|;
    assert s[k] == s[a..][|prefix|] == '/';
    forall j | a <= j < k ensures IsSegmentChar(s[j]) { assert s[j] == s[a..][j - a] == prefix[j - a]; }
    forall j | k + 1 <= j < |s| ensures IsSegmentChar(s[j]) { assert s[j] == s[a..][j - a] == suffix[j - k - 1]; }
    assert AllIn(s, a, k, IsSegmentChar) && AllIn(s, k + 1, |s|, IsSegmentChar);
  }

  /** `s[a..]` spelled `d1.d2/suffix`, with digit runs `d1` and `d2`, is in `[0-9]+\.[0-9]+/[^/\s]+`. */
  lemma NumericTail(s: string, a: nat, d1: string, d2: string, suffix: string)
    requires d1 != [] && AllIn(d1, 0, |d1|, IsDigit) && d2 != [] && AllIn(d2, 0, |d2|, IsDigit)
    requires suffix != [] && AllIn(suffix, 0, |suffix|, IsSegmentChar)
    requires a <= |s| && s[a..] == d1 + "." + d2 + "/" + suffix
    ensures IsNumericDoiAt(s, a, |s|)
  {
    var t := s[a..];
    var i, k := a + |d1|, a + |d1| + 1 + |d2|;
    assert s[i] == t[|d1|] == '.';
    assert s[k] == t[|d1| + 1 + |d2|] == '/';
    forall j | a <= j < i ensures IsDigit(s[j]) { assert s[j] == t[j - a] == d1[j - a]; }
    forall j | i + 1 <= j < k ensures IsDigit(s[j]) { assert s[j] == t[j - a] == d2[j - i - 1]; }
    forall j | k + 1 <= j < |s| ensures IsSegmentChar(s[j]) { assert s[j] == t[j - a] == suffix[j - k - 1]; }
    assert AllIn(s, a, i, IsDigit) && AllIn(s, i + 1, k, IsDigit) && AllIn(s, k + 1, |s|, IsSegmentChar);
  }

  /** Both marker patterns start with 'd', so neither matches where there is no 'd'. */
  lemma NoMarkerWithoutD(s: string, pat: Pattern, q: nat)
    requires pat != BareNumeric && q <= |s| && (q < |s| ==> s[q] != 'd')
    ensures MatchAt(s, pat, q).None?
  {
    if q < |s| {
      NotOpensAt(s, pat, q);
    }
  }

  /** Neither marker pattern matches where no slash follows the marker. */
  lemma NoMarkerGroupWithoutSlash(s: string, pat: Pattern, q: nat)
    requires pat != BareNumeric && q <= |s|
    requires forall j :: q + |Marker(pat)| <= j < |s| ==> s[j] != '/'
    ensures MatchAt(s, pat, q).None?
  {
  }

  /** The bare numeric pattern does not match where there is no digit. */
  lemma NoNumericWithoutDigit(s: string, q: nat)
    requires q < |s| && !IsDigit(s[q])
    ensures MatchAt(s, BareNumeric, q).None?
  {
  }

  /**
   * When every 'd' of a text lies after its last slash `k`, neither marker pattern
   * matches anywhere: a marker needs a 'd' and, after it, a slash and a group holding another.
   */
  lemma MarkersNeverMatch(s: string, k: nat)
    requires k < |s|
    requires forall j :: 0 <= j <= k ==> s[j] != 'd'
    requires forall j :: k < j < |s| ==> s[j] != '/'
    ensures forall q :: 0 <= q <= |s| ==> MatchAt(s, DoiOrg, q).None? && MatchAt(s, DoiColon, q).None?
  {
    forall q | 0 <= q <= |s| ensures MatchAt(s, DoiOrg, q).None? && MatchAt(s, DoiColon, q).None? {
      if q <= k {
        NoMarkerWithoutD(s, DoiOrg, q);
        NoMarkerWithoutD(s, DoiColon, q);
      } else {
        NoMarkerGroupWithoutSlash(s, DoiOrg, q);
        NoMarkerGroupWithoutSlash(s, DoiColon, q);
      }
    }
  }

  /**
   * A `doi:` link `<pre>doi:<prefix>/<suffix>` gives back `<prefix>/<suffix>` when
   * `<pre>` has no 'd': the first pattern finds nothing and the second matches.
   */
  lemma DoiOfColonLink(pre: string, prefix: string, suffix: string)
    requires forall j :: 0 <= j < |pre| ==> pre[j] != 'd'
    requires prefix != [] && AllIn(prefix, 0, |prefix|, IsSegmentChar)
    requires suffix != [] && AllIn(suffix, 0, |suffix|, IsSegmentChar)
    ensures DoiOf(pre + "doi:" + prefix + "/" + suffix) == Some(prefix + "/" + suffix)
  {
    var url := pre + "doi:" + prefix + "/" + suffix;
    var doi := prefix + "/" + suffix;
    assert url == pre + "doi:" + doi;
    ColonLinkNoResolver(url, pre, prefix, suffix);
    ColonLinkSearch(url, pre, doi, prefix, suffix);
    DoiOfCases(url);
    assert DoiOf(url) == Search(url, DoiColon);
  }

  /** In a `doi:` link the first pattern matches nowhere. */
  lemma ColonLinkNoResolver(url: string, pre: string, prefix: string, suffix: string)
    requires forall j :: 0 <= j < |pre| ==> pre[j] != 'd'
    requires prefix != [] && AllIn(prefix, 0, |prefix|, IsSegmentChar)
    requires suffix != [] && AllIn(suffix, 0, |suffix|, IsSegmentChar)
    requires url == pre + "doi:" + prefix + "/" + suffix
    ensures Search(url, DoiOrg).None?
  {
    var k := |pre| + 4 + |prefix|;
    forall j | 0 <= j < |pre| ensures url[j] != 'd' { assert url[j] == pre[j]; }
    forall j | |pre| + 4 <= j < k ensures url[j] != '/' { assert url[j] == prefix[j - |pre| - 4]; }
    forall j | k < j < |url| ensures url[j] != '/' { assert url[j] == suffix[j - k - 1]; }
    ResolverNeverMatches(url, |pre|, k);
  }

  /**
   * The first pattern matches nowhere when no 'd' comes before `lo` and `k` is the only
   * slash from `lo + 7` on: its marker would have to end at `k`, leaving no slash for the group.
   */
  lemma ResolverNeverMatches(url: string, lo: nat, k: nat)
    requires lo <= k < |url|
    requires forall j :: 0 <= j < lo ==> url[j] != 'd'
    requires forall j :: lo + 7 <= j < k ==> url[j] != '/'
    requires forall j :: k < j < |url| ==> url[j] != '/'
    ensures forall q :: 0 <= q <= |url| ==> MatchAt(url, DoiOrg, q).None?
  {
    forall q | 0 <= q <= |url| ensures MatchAt(url, DoiOrg, q).None? {
      if q < lo {
        NoMarkerWithoutD(url, DoiOrg, q);
      } else if k < q + 8 {
        NoMarkerGroupWithoutSlash(url, DoiOrg, q);
      } else {
        assert url[q..q + 8] != Marker(DoiOrg) by {
          assert url[q..q + 8][7] == url[q + 7] != '/' == Marker(DoiOrg)[7];
        }
      }
    }
  }

  /** In a `doi:` link the second pattern finds the DOI right after the marker. */
  lemma ColonLinkSearch(url: string, pre: string, doi: string, prefix: string, suffix: string)
    requires forall j :: 0 <= j < |pre| ==> pre[j] != 'd'
    requires prefix != [] && AllIn(prefix, 0, |prefix|, IsSegmentChar)
    requires suffix != [] && AllIn(suffix, 0, |suffix|, IsSegmentChar)
    requires doi == prefix + "/" + suffix && url == pre + "doi:" + doi
    ensures Search(url, DoiColon) == Some(doi)
  {
    var p := |pre|;
    forall q | 0 <= q < p ensures MatchAt(url, DoiColon, q).None? {
      assert url[q] == pre[q];
      NoMarkerWithoutD(url, DoiColon, q);
    }
    assert url[p..] == "doi:" + doi;
    ColonLinkMatch(url, p, doi, prefix, suffix);
    FirstMatchIsLeftmost(url, DoiColon, 0, p);
  }

  /** The second pattern matches `doi:<prefix>/<suffix>` at the end of a text, with that DOI as its group. */
  lemma ColonLinkMatch(url: string, p: nat, doi: string, prefix: string, suffix: string)
    requires prefix != [] && AllIn(prefix, 0, |prefix|, IsSegmentChar)
    requires suffix != [] && AllIn(suffix, 0, |suffix|, IsSegmentChar)
    requires doi == prefix + "/" + suffix && p <= |url| && url[p..] == "doi:" + doi
    ensures MatchAt(url, DoiColon, p) == Some(|url|)
    ensures url[p + |Marker(DoiColon)|..|url|] == doi
  {
    var t := url[p..];
    assert t[..4] == "doi:" && t[4..] == doi;
    assert url[p..p + 4] == t[..4];
    assert url[p + 4..] == t[4..];
    assert Opens(url, DoiColon, p);
    DoiTail(url, p + 4, prefix, suffix);
    GroupToEnd(url, DoiColon, p);
    assert |Marker(DoiColon)| == 4;
    SliceToEnd(url, p + 4);
  }

  lemma SliceToEnd(s: string, a: nat)
    requires a <= |s|
    ensures s[a..|s|] == s[a..]
  {
  }

  /**
   * A link `<pre><d1>.<d2>/<suffix>` with digit runs `d1`, `d2` gives back
   * `<d1>.<d2>/<suffix>` when `<pre>` has neither a digit nor a 'd'.
   */
  lemma DoiOfNumericLink(pre: string, d1: string, d2: string, suffix: string)
    requires forall j :: 0 <= j < |pre| ==> pre[j] != 'd' && !IsDigit(pre[j])
    requires d1 != [] && AllIn(d1, 0, |d1|, IsDigit) && d2 != [] && AllIn(d2, 0, |d2|, IsDigit)
    requires suffix != [] && AllIn(suffix, 0, |suffix|, IsSegmentChar)
    ensures DoiOf(pre + d1 + "." + d2 + "/" + suffix) == Some(d1 + "." + d2 + "/" + suffix)
  {
    var url := pre + d1 + "." + d2 + "/" + suffix;
    var doi := d1 + "." + d2 + "/" + suffix;
    assert url == pre + doi;
    NumericLinkNoMarker(url, pre, d1, d2, suffix);
    NumericLinkSearch(url, pre, doi, d1, d2, suffix);
    DoiOfCases(url);
    assert DoiOf(url) == Search(url, BareNumeric);
  }

  /** In a bare numeric link neither marker pattern matches. */
  lemma NumericLinkNoMarker(url: string, pre: string, d1: string, d2: string, suffix: string)
    requires forall j :: 0 <= j < |pre| ==> pre[j] != 'd'
    requires AllIn(d1, 0, |d1|, IsDigit) && AllIn(d2, 0, |d2|, IsDigit)
    requires AllIn(suffix, 0, |suffix|, IsSegmentChar)
    requires url == pre + d1 + "." + d2 + "/" + suffix
    ensures Search(url, DoiOrg).None? && Search(url, DoiColon).None?
  {
    var k := |pre| + |d1| + 1 + |d2|;
    forall j | 0 <= j <= k ensures url[j] != 'd' {
      if j < |pre| { assert url[j] == pre[j]; }
      else if j < |pre| + |d1| { assert url[j] == d1[j - |pre|]; }
      else if j == |pre| + |d1| { assert url[j] == '.'; }
      else if j < k { assert url[j] == d2[j - |pre| - |d1| - 1]; }
      else { assert url[j] == '/'; }
    }
    forall j | k < j < |url| ensures url[j] != '/' { assert url[j] == suffix[j - k - 1]; }
    MarkersNeverMatch(url, k);
  }

  /** In a bare numeric link the third pattern finds the DOI where the digits start. */
  lemma NumericLinkSearch(url: string, pre: string, doi: string, d1: string, d2: string, suffix: string)
    requires forall j :: 0 <= j < |pre| ==> !IsDigit(pre[j])
    requires d1 != [] && AllIn(d1, 0, |d1|, IsDigit) && d2 != [] && AllIn(d2, 0, |d2|, IsDigit)
    requires suffix != [] && AllIn(suffix, 0, |suffix|, IsSegmentChar)
    requires doi == d1 + "." + d2 + "/" + suffix && url == pre + doi
    ensures Search(url, BareNumeric) == Some(doi)
  {
    var p := |pre|;
    forall q | 0 <= q < p ensures MatchAt(url, BareNumeric, q).None? {
      assert url[q] == pre[q];
      NoNumericWithoutDigit(url, q);
    }
    assert url[p..] == doi;
    NumericLinkMatch(url, p, d1, d2, suffix);
    FirstMatchIsLeftmost(url, BareNumeric, 0, p);
    assert url[p..|url|] == doi;
  }

  /** The third pattern matches a numeric DOI that runs to the end of the text. */
  lemma NumericLinkMatch(url: string, p: nat, d1: string, d2: string, suffix: string)
    requires d1 != [] && AllIn(d1, 0, |d1|, IsDigit) && d2 != [] && AllIn(d2, 0, |d2|, IsDigit)
    requires suffix != [] && AllIn(suffix, 0, |suffix|, IsSegmentChar)
    requires p <= |url| && url[p..] == d1 + "." + d2 + "/" + suffix
    ensures MatchAt(url, BareNumeric, p) == Some(|url|)
  {
    NumericTail(url, p, d1, d2, suffix);
    assert Opens(url, BareNumeric, p);
    GroupToEnd(url, BareNumeric, p);
  }

  /**
   * A URL without digits whose every 'd' comes after its last slash `k` gives no DOI.
   */
  lemma DoiOfNoDigitsNoMarker(url: string, k: nat)
    requires k < |url|
    requires forall j :: 0 <= j < |url| ==> !IsDigit(url[j])
    requires forall j :: 0 <= j <= k ==> url[j] != 'd'
    requires forall j :: k < j < |url| ==> url[j] != '/'
    ensures DoiOf(url).None?
  {
    MarkersNeverMatch(url, k);
    forall q | 0 <= q <= |url| ensures MatchAt(url, BareNumeric, q).None? {
      if q < |url| { NoNumericWithoutDigit(url, q); }
    }
    DoiOfNone(url);
  }

  /** The extraction test's URL without a DOI gives nothing. */
  lemma ExampleInvalidUrl()
    ensures DoiOf("https://invalid-url.com").None?
  {
    DoiOfNoDigitsNoMarker("https://invalid-url.com", 7);
  }
}
