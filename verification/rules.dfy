/** The string rules the thesis mapper applies to single values. */
module Rules {
  import opened Wrappers
  import opened Text

  const EpflFullName: string := "Ecole Polytechnique Fédérale de Lausanne"

  /** The value is the bare token EPFL, ignoring case and surrounding blanks. */
  predicate IsEpflToken(s: string) {
    Upper(Strip(s)) == "EPFL"
  }

  /**
   * `expand_epfl`: a publisher given as the bare token EPFL becomes the
   * institution's full name; any other value, `None` and `""` pass through.
   */
  function ExpandEpfl(v: Option<string>): (r: Option<string>)
    ensures r == v || r == Some(EpflFullName)
    ensures r != v ==> Truthy(v) && IsEpflToken(v.value)
    ensures Truthy(v) && IsEpflToken(v.value) ==> r == Some(EpflFullName)
  {
    if !Truthy(v) then v
    else if IsEpflToken(v.value) then Some(EpflFullName)
    else v
  }

  /** The full name is not itself the token, so it is never expanded again. */
  lemma FullNameIsNotToken()
    ensures !IsEpflToken(EpflFullName)
  {
    assert !IsSpace(EpflFullName[0]);
  }

  /** Expanding an already expanded publisher changes nothing. */
  lemma ExpandEpflIdempotent(v: Option<string>)
    ensures ExpandEpfl(ExpandEpfl(v)) == ExpandEpfl(v)
  {
    FullNameIsNotToken();
  }

  /** Python's `[p.strip() for p in xs]`. */
  function StripAll(xs: seq<string>): (r: seq<string>)
    ensures |r| == |xs|
    ensures forall i :: 0 <= i < |xs| ==> r[i] == Strip(xs[i])
  {
    seq(|xs|, i requires 0 <= i < |xs| => Strip(xs[i]))
  }

  /** The pieces after the first, joined by spaces, then the first piece, the whole stripped. */
  function Rotate(parts: seq<string>): (r: string)
    requires |parts| >= 2
    ensures (forall i :: 0 <= i < |parts| ==> ',' !in parts[i]) ==> ',' !in r
  {
    var firsts := Strip(Join(" ", parts[1..]));
    var inverted := Strip(firsts + " " + parts[0]);
    assert (forall i :: 0 <= i < |parts| ==> ',' !in parts[i]) ==> ',' !in inverted by {
      if forall i :: 0 <= i < |parts| ==> ',' !in parts[i] {
        JoinAvoids(" ", parts[1..], ',');
        assert ',' !in firsts + " " + parts[0];
      }
    }
    inverted
  }

  /**
   * `invert_name_comma`: "Surname, Given" becomes "Given Surname". The name is
   * split at EVERY comma and each piece stripped; the pieces after the first,
   * joined by spaces, come before the first. A name without a comma, `None`
   * and `""` are returned as they are.
   */
  function InvertNameComma(name: Option<string>): (r: Option<string>)
    ensures !Truthy(name) ==> r == name
    ensures Truthy(name) && ',' !in name.value ==> r == name
    ensures Truthy(name) && ',' in name.value ==> r.Some? && ',' !in r.value
    ensures r == name <==> !Truthy(name) || ',' !in name.value
  {
    if !Truthy(name) then name
    else
      var parts := StripAll(Split(name.value, ','));
      if |parts| >= 2 then Some(Rotate(parts)) else name
  }

  /** Non-empty pieces with no blank at either end. */
  predicate AllTrimmed(xs: seq<string>) {
    forall i :: 0 <= i < |xs| ==> Trimmed(xs[i])
  }

  lemma {:induction false} JoinTrimmedEnds(xs: seq<string>)
    requires |xs| >= 1 && AllTrimmed(xs)
    ensures var j := Join(" ", xs);
            j != [] && j[0] == xs[0][0] && j[|j| - 1] == xs[|xs| - 1][|xs[|xs| - 1]| - 1]
    decreases |xs|
  {
    if |xs| > 1 {
      JoinTrimmedEnds(xs[1..]);
    }
  }

  lemma RotateTrimmed(qs: seq<string>)
    requires |qs| >= 2 && AllTrimmed(qs)
    ensures Rotate(qs) == Join(" ", qs[1..] + [qs[0]])
  {
    var firsts := Join(" ", qs[1..]);
    JoinTrimmedEnds(qs[1..]);
    StripKeepsTrimmed(firsts, IsSpace);
    JoinSnoc(" ", qs[1..], qs[0]);
    var rotated := qs[1..] + [qs[0]];
    assert AllTrimmed(rotated);
    JoinTrimmedEnds(rotated);
    StripKeepsTrimmed(Join(" ", rotated), IsSpace);
  }

  /** With at least two comma-free pieces, the name is rotated as a whole. */
  lemma InvertIsRotate(ps: seq<string>)
    requires |ps| >= 2
    requires forall i :: 0 <= i < |ps| ==> ',' !in ps[i]
    ensures InvertNameComma(Some(Join([','], ps))) == Some(Rotate(StripAll(ps)))
  {
    SplitJoin(ps, ',');
    assert ',' in Join([','], ps);
  }

  lemma StripAllTrimmed(ps: seq<string>)
    requires forall i :: 0 <= i < |ps| ==> Strip(ps[i]) != ""
    ensures AllTrimmed(StripAll(ps))
  {
  }

  /**
   * When every comma-separated piece is non-blank, the inverted name is the
   * stripped pieces rotated by one (first piece last), joined by single spaces.
   */
  lemma InvertNameRotates(ps: seq<string>)
    requires |ps| >= 2
    requires forall i :: 0 <= i < |ps| ==> ',' !in ps[i] && Strip(ps[i]) != ""
    ensures var qs := StripAll(ps);
            InvertNameComma(Some(Join([','], ps))) == Some(Join(" ", qs[1..] + [qs[0]]))
  {
    InvertIsRotate(ps);
    StripAllTrimmed(ps);
    RotateTrimmed(StripAll(ps));
  }

  /**
   * `ensure_pages_suffix`: a value already mentioning "pages" (any case) is
   * kept; any other non-empty value is stripped and gets " pages" appended.
   */
  function EnsurePagesSuffix(v: Option<string>): (r: Option<string>)
    ensures !Truthy(v) ==> r == v
    ensures Truthy(v) ==> r.Some? && Contains(Lower(r.value), "pages")
    ensures Truthy(v) && Contains(Lower(v.value), "pages") ==> r == v
    ensures r != v ==> r == Some(Strip(v.value) + " pages")
  {
    if !Truthy(v) then v
    else if Contains(Lower(v.value), "pages") then v
    else
      SuffixedMentionsPages(Strip(v.value));
      Some(Strip(v.value) + " pages")
  }

  /** Whatever precedes it, the appended suffix makes the value mention "pages". */
  lemma SuffixedMentionsPages(t: string)
    ensures Contains(Lower(t + " pages"), "pages")
  {
    LowerAppend(t, " pages");
    assert Lower(" pages") == " pages";
    assert Lower(t + " pages") == (Lower(t) + " ") + "pages";
    ContainsSuffix(Lower(t) + " ", "pages");
  }

  /** Adding the suffix twice is adding it once. */
  lemma EnsurePagesSuffixIdempotent(v: Option<string>)
    ensures EnsurePagesSuffix(EnsurePagesSuffix(v)) == EnsurePagesSuffix(v)
  {
  }

  /** "120" becomes "120 pages" and "120 pages" stays as it is. */
  lemma PagesSuffixExamples()
    ensures EnsurePagesSuffix(Some("120")) == Some("120 pages")
    ensures EnsurePagesSuffix(Some("120 pages")) == Some("120 pages")
  {
    assert Lower("120") == "120";
    ShorterLacks("120", "pages");
    assert !IsSpace('1') && !IsSpace('0');
    StripKeepsTrimmed("120", IsSpace);
    assert Strip("120") == "120";
    assert !Contains(Lower("120"), "pages");
    assert "120" + " pages" == "120 pages";
    SuffixedMentionsPages("120");
  }
}
