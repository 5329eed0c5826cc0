/** `extract_marc_info`: the identifier, title, author and statement of responsibility read from a final record. */
module Extract {
  import opened Wrappers
  import opened Text
  import opened Marc
  import opened Mapper

  datatype MarcInfo = MarcInfo(
    id: Option<string>,
    title: Option<string>,
    author: Option<string>,
    responsibility: Option<string>)

  /** The characters `.strip(" /")` removes. */
  predicate IsTitleEdge(c: char) {
    c == ' ' || c == '/'
  }

  /** The non-empty parts among `$a` and `$b`, in that order. */
  function TitleParts(a: Option<string>, b: Option<string>): (ps: seq<string>)
    ensures |ps| <= 2
    ensures forall i :: 0 <= i < |ps| ==> ps[i] != ""
  {
    (if Truthy(a) then [a.value] else []) + (if Truthy(b) then [b.value] else [])
  }

  /**
   * The title: the non-empty parts among `$a` and `$b` joined by a space,
   * then spaces and slashes stripped from both ends; `None` when no part is
   * non-empty. A title made only of spaces and slashes strips to `""`.
   */
  function TitleFrom(a: Option<string>, b: Option<string>): (r: Option<string>)
    ensures r.None? <==> !Truthy(a) && !Truthy(b)
    ensures r.Some? && r.value != [] ==> !IsTitleEdge(r.value[0]) && !IsTitleEdge(r.value[|r.value| - 1])
  {
    var raw := Join(" ", TitleParts(a, b));
    if raw == "" then None else Some(StripWhere(raw, IsTitleEdge))
  }

  /** A lone part without spaces or slashes at its ends is the title as it is. */
  lemma TitleOfPlainPart(t: string)
    requires t != [] && !IsTitleEdge(t[0]) && !IsTitleEdge(t[|t| - 1])
    ensures TitleFrom(Some(t), None) == Some(t)
  {
    StripKeepsTrimmed(t, IsTitleEdge);
  }

  /** Two parts are joined by one space before the ends are stripped. */
  lemma TitleOfTwoParts(a: string, b: string)
    requires a != "" && b != ""
    ensures TitleFrom(Some(a), Some(b)) == Some(StripWhere(a + " " + b, IsTitleEdge))
  {
    assert TitleParts(Some(a), Some(b)) == [a, b];
    assert [a, b][1..] == [b];
    assert Join(" ", [a, b]) == a + " " + b;
  }

  /** Two parts whose outer ends are neither a space nor a slash make the title "a b" as they are. */
  lemma TitleOfTrimmedParts(a: string, b: string)
    requires a != "" && b != "" && !IsTitleEdge(a[0]) && !IsTitleEdge(b[|b| - 1])
    ensures TitleFrom(Some(a), Some(b)) == Some(a + " " + b)
  {
    TitleOfTwoParts(a, b);
    var j := a + " " + b;
    assert j[0] == a[0] && j[|j| - 1] == b[|b| - 1];
    StripKeepsTrimmed(j, IsTitleEdge);
  }

  /** A trailing " /" (the ISBD mark before the statement of responsibility) is dropped. */
  lemma TitleDropsTrailingSlash(t: string)
    requires t != [] && !IsTitleEdge(t[0]) && !IsTitleEdge(t[|t| - 1])
    ensures TitleFrom(Some(t + " /"), None) == Some(t)
  {
    var s := t + " /";
    assert s[|s| - 1] == '/' && s[..|s| - 1] == t + " ";
    assert (t + " ")[|t|] == ' ' && (t + " ")[..|t|] == t;
    StripKeepsTrimmed(t, IsTitleEdge);
    assert TrimLeft(s, IsTitleEdge) == s;
    assert TrimRight(s, IsTitleEdge) == TrimRight(t + " ", IsTitleEdge) == TrimRight(t, IsTitleEdge);
  }

  /**
   * `extract_marc_info` with the identifier read safely: the data of the first
   * 001 if any; the title and responsibility from the first 245, the author
   * from the first 100 (all `None` when the field is missing).
   */
  function ExtractMarcInfo(r: Record): (info: MarcInfo)
    ensures info.author == FGet(r, "100", 'a')
    ensures info.responsibility == FGet(r, "245", 'c')
    ensures info.id == SourceId(r)
    ensures info.title.Some? <==> Truthy(FGet(r, "245", 'a')) || Truthy(FGet(r, "245", 'b'))
  {
    MarcInfo(SourceId(r), TitleFrom(FGet(r, "245", 'a'), FGet(r, "245", 'b')), FGet(r, "100", 'a'), FGet(r, "245", 'c'))
  }

  /**
   * `extract_marc_info` as the source writes it: `record["001"]` raises
   * `KeyError` on a record without a 001 field instead of leaving the
   * identifier `None`.
   */
  function ExtractMarcInfoAsWritten(r: Record): (res: Result<MarcInfo>)
    ensures res.Failed? <==> forall i :: 0 <= i < |r.fields| ==> r.fields[i].tag != "001"
    ensures res.Ok? ==> res.value == ExtractMarcInfo(r)
  {
    FirstWithTagIsFirst(r.fields, "001");
    if FirstWithTag(r.fields, "001").None? then Failed("KeyError: '001'") else Ok(ExtractMarcInfo(r))
  }

  /** The summary of a final record gives back the values it was built from. */
  lemma ExtractOfAssemble(v: ThesisValues)
    ensures ExtractMarcInfo(Assemble(v))
         == MarcInfo(NonEmpty(v.id), TitleFrom(v.title, v.subtitle), NonEmpty(v.author), NonEmpty(v.statement))
  {
    IdentifierCopied(v);
    MainEntry(v);
    TitleStatement(v);
  }

  /** A record without 001 is rejected by the as-written summary and has no identifier in the corrected one. */
  lemma NoIdentifierSummary(r: Record)
    requires FieldsWithTag(r.fields, "001") == []
    ensures ExtractMarcInfoAsWritten(r).Failed?
    ensures ExtractMarcInfo(r).id.None?
  {
  }

  /**
   * A final record built without an identifier (as from a source without 001)
   * is rejected by the as-written summary; the corrected one reports no identifier.
   */
  lemma SummaryWithoutIdentifier(v: ThesisValues)
    requires !Truthy(v.id)
    ensures ExtractMarcInfoAsWritten(Assemble(v)).Failed?
    ensures ExtractMarcInfo(Assemble(v)).id.None?
  {
    IdentifierCopied(v);
    NoIdentifierSummary(Assemble(v));
  }
}
