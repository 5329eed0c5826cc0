/**
 * The `[holding]` section of the configuration: library code, call-number
 * prefix and the comma-separated list of locations that get a holding.
 * Reading the INI file is not modelled: a key is `None` when the section does
 * not set it.
 */
module Config {
  import opened Wrappers
  import opened Text

  const DefaultLocations: seq<string> := ["E02XA", "E02SP"]
  const DefaultLibraryCode: string := "hph_bjnbecip"
  const DefaultCallNumberPrefix: string := "ZTK"

  /** A location name as the list keeps it: non-empty, no surrounding whitespace, no comma. */
  predicate CleanName(x: string) {
    Trimmed(x) && ',' !in x
  }

  /** `[l.strip() for l in parts if l.strip()]`. */
  function CleanLocations(parts: seq<string>): (locs: seq<string>)
    ensures |locs| <= |parts|
    ensures forall i :: 0 <= i < |locs| ==> Trimmed(locs[i])
    decreases |parts|
  {
    if |parts| == 0 then []
    else
      var head := Strip(parts[0]);
      var rest := CleanLocations(parts[1..]);
      if head != "" then [head] + rest else rest
  }

  /** Stripping adds no character: a character no part holds is in no location. */
  lemma {:induction false} CleanLocationsAvoid(parts: seq<string>, c: char)
    requires forall i :: 0 <= i < |parts| ==> c !in parts[i]
    ensures forall k :: 0 <= k < |CleanLocations(parts)| ==> c !in CleanLocations(parts)[k]
    decreases |parts|
  {
    if |parts| > 0 {
      CleanLocationsAvoid(parts[1..], c);
      assert c !in Strip(parts[0]);
    }
  }

  /** Every part that does not strip to nothing is listed. */
  lemma {:induction false} CleanLocationsKeepsParts(parts: seq<string>)
    ensures forall i :: 0 <= i < |parts| && Strip(parts[i]) != "" ==> Strip(parts[i]) in CleanLocations(parts)
    decreases |parts|
  {
    if |parts| > 0 {
      CleanLocationsKeepsParts(parts[1..]);
      var rest := CleanLocations(parts[1..]);
      assert forall i :: 1 <= i < |parts| ==> parts[i] == parts[1..][i - 1];
    }
  }

  /** Parts that all strip to nothing give no location. */
  lemma {:induction false} AllBlankParts(parts: seq<string>)
    requires forall i :: 0 <= i < |parts| ==> Strip(parts[i]) == ""
    ensures CleanLocations(parts) == []
    decreases |parts|
  {
    if |parts| > 0 {
      AllBlankParts(parts[1..]);
    }
  }

  /** The locations a raw `locations` value lists, in order. */
  function ParseLocations(raw: string): (locs: seq<string>)
    ensures forall i :: 0 <= i < |locs| ==> Trimmed(locs[i]) && ',' !in locs[i]
  {
    var parts := Split(raw, ',');
    var locs := CleanLocations(parts);
    CleanLocationsAvoid(parts, ',');
    locs
  }

  /**
   * The configured locations: the parsed list when the key is set and lists
   * at least one location, the default otherwise.
   */
  function HoldingLocations(raw: Option<string>): (locs: seq<string>)
    ensures locs != []
    ensures forall i :: 0 <= i < |locs| ==> locs[i] != "" && ',' !in locs[i]
    ensures locs == DefaultLocations <== raw.None? || ParseLocations(raw.value) == []
    ensures raw.Some? && ParseLocations(raw.value) != [] ==> locs == ParseLocations(raw.value)
  {
    if raw.Some? && ParseLocations(raw.value) != [] then ParseLocations(raw.value) else DefaultLocations
  }

  /** The holding settings `load_config` returns. */
  datatype HoldingInfo = HoldingInfo(libraryCode: string, locations: seq<string>, callNumberPrefix: string)

  /**
   * The `[holding]` section: each key the section sets replaces its default
   * as written (an empty library code or prefix included), except that a
   * `locations` value listing no location keeps the default list.
   */
  function LoadHoldingSection(libraryCode: Option<string>, locations: Option<string>, prefix: Option<string>): (h: HoldingInfo)
    ensures h.libraryCode == (if libraryCode.Some? then libraryCode.value else DefaultLibraryCode)
    ensures h.callNumberPrefix == (if prefix.Some? then prefix.value else DefaultCallNumberPrefix)
    ensures h.locations != [] && h.locations == HoldingLocations(locations)
  {
    HoldingInfo(libraryCode.GetOr(DefaultLibraryCode), HoldingLocations(locations), prefix.GetOr(DefaultCallNumberPrefix))
  }

  /** Without a `[holding]` section the run uses library "hph_bjnbecip", locations E02XA then E02SP, prefix "ZTK". */
  lemma NoSectionDefaults()
    ensures LoadHoldingSection(None, None, None) == HoldingInfo("hph_bjnbecip", ["E02XA", "E02SP"], "ZTK")
    ensures |LoadHoldingSection(None, None, None).locations| == 2
  {
  }

  /** A part that strips to nothing (as between two adjacent commas) is skipped. */
  lemma {:induction false} BlankPartSkipped(pre: seq<string>, p: string, post: seq<string>)
    requires Strip(p) == ""
    ensures CleanLocations(pre + [p] + post) == CleanLocations(pre + post)
    decreases |pre|
  {
    if |pre| == 0 {
      assert pre + [p] + post == [p] + post && ([p] + post)[1..] == post && pre + post == post;
    } else {
      assert (pre + [p] + post)[0] == pre[0] && (pre + [p] + post)[1..] == pre[1..] + [p] + post;
      assert (pre + post)[0] == pre[0] && (pre + post)[1..] == pre[1..] + post;
      BlankPartSkipped(pre[1..], p, post);
    }
  }

  /** Clean names pass through the list comprehension unchanged. */
  lemma {:induction false} CleanNamesKept(xs: seq<string>)
    requires forall i :: 0 <= i < |xs| ==> Trimmed(xs[i])
    ensures CleanLocations(xs) == xs
    decreases |xs|
  {
    if |xs| > 0 {
      StripKeepsTrimmed(xs[0], IsSpace);
      CleanNamesKept(xs[1..]);
    }
  }

  /** Writing clean names separated by commas and reading the value back gives the same list. */
  lemma LocationsRoundTrip(xs: seq<string>)
    requires forall i :: 0 <= i < |xs| ==> CleanName(xs[i])
    ensures xs != [] ==> ParseLocations(Join(",", xs)) == xs
  {
    if xs != [] {
      assert "," == [','];
      SplitJoin(xs, ',');
      CleanNamesKept(xs);
    }
  }

  /** A value listing clean names configures exactly those locations, in that order. */
  lemma ConfiguredLocations(xs: seq<string>)
    requires xs != []
    requires forall i :: 0 <= i < |xs| ==> CleanName(xs[i])
    ensures HoldingLocations(Some(Join(",", xs))) == xs
  {
    LocationsRoundTrip(xs);
  }

  /** Without usable locations (key missing, empty or only commas and blanks) the default is kept. */
  lemma BlankValueKeepsDefault(raw: string)
    requires forall k :: 0 <= k < |raw| ==> raw[k] == ',' || IsSpace(raw[k])
    ensures HoldingLocations(Some(raw)) == DefaultLocations
  {
    var parts := Split(raw, ',');
    forall j | 0 <= j < |parts| ensures Strip(parts[j]) == "" {
      BlankPart(raw, parts, j);
    }
    AllBlankParts(parts);
  }

  /** Every part of the split of an all-blank-and-comma value is blank. */
  lemma BlankPart(raw: string, parts: seq<string>, j: nat)
    requires forall k :: 0 <= k < |raw| ==> raw[k] == ',' || IsSpace(raw[k])
    requires parts == Split(raw, ',') && j < |parts|
    ensures Strip(parts[j]) == ""
  {
    PartOfSplit(raw, j);
    forall k | 0 <= k < |parts[j]| ensures IsSpace(parts[j][k]) {
      var m :| 0 <= m < |raw| && raw[m] == parts[j][k];
      assert parts[j][k] != ',';
    }
    StripEmptyIff(parts[j], IsSpace);
  }

  /** Each part of a split is made of characters of the string split. */
  lemma {:induction false} PartOfSplit(s: string, j: nat)
    requires j < |Split(s, ',')|
    ensures forall k :: 0 <= k < |Split(s, ',')[j]| ==> Split(s, ',')[j][k] in s
    decreases |s|
  {
    if ',' in s {
      SplitUnfold(s, ',');
      var i := IndexOf(s, ',');
      if j > 0 {
        PartOfSplit(s[i + 1..], j - 1);
        forall k | 0 <= k < |Split(s, ',')[j]| ensures Split(s, ',')[j][k] in s {
          assert Split(s, ',')[j][k] in s[i + 1..];
        }
      }
    }
  }
}
