/**
 * `build_final_record`: the Infoscience thesis record mapped to the final
 * bibliographic record (leader, control fields, RDA description, thesis note,
 * keywords, genre terms and the thesis director).
 */
module Mapper {
  import opened Wrappers
  import opened Text
  import opened Marc
  import opened Rules

  const FinalLeader: string := "00000nam a2200000 c 4500"
  const Fixed008: string := "||||||s2025    sz   a   m    00| | eng  "
  const CatalogingAgency: string := "CH-ZuSLS EPFL"
  const KeywordsIntro: string := "Mots-clés de l'auteur : "

  const F008: Field := ControlField("008", Fixed008)
  const F040: Field := DataField("040", ' ', ' ', [Subfield('a', CatalogingAgency), Subfield('b', "fre"), Subfield('e', "rda")])
  const F336: Field := DataField("336", ' ', ' ', [Subfield('b', "txt"), Subfield('2', "rdacontent")])
  const F337: Field := DataField("337", ' ', ' ', [Subfield('b', "n"), Subfield('2', "rdamedia")])
  const F338: Field := DataField("338", ' ', ' ', [Subfield('b', "nc"), Subfield('2', "rdacarrier")])

  /** The three genre terms (IdRef, GND, SBT), always in this order. */
  const GenreFields: seq<Field> := [
    DataField("655", ' ', '7', [Subfield('a', "Thèses et écrits académiques"), Subfield('0', "(IDREF)027253139"), Subfield('2', "idref")]),
    DataField("655", ' ', '7', [Subfield('a', "Hochschulschrift"), Subfield('2', "gnd-content")]),
    DataField("655", ' ', '7', [Subfield('a', "Tesi"), Subfield('2', "sbt12-content")])
  ]

  // ---------------------------------------------------------------------------
  // searching the source
  // ---------------------------------------------------------------------------

  /** The first field satisfying `p`: a `for ... break` or `next(...)` search. */
  function FirstWhere(fs: seq<Field>, p: Field -> bool): (r: Option<Field>)
    ensures r.None? <==> forall i :: 0 <= i < |fs| ==> !p(fs[i])
    ensures r.Some? ==> exists i :: 0 <= i < |fs| && fs[i] == r.value && p(fs[i]) && forall j :: 0 <= j < i ==> !p(fs[j])
  {
    if |fs| == 0 then None
    else if p(fs[0]) then Some(fs[0])
    else
      var r := FirstWhere(fs[1..], p);
      assert r.Some? ==> exists i :: 0 <= i < |fs| && fs[i] == r.value && p(fs[i]) && forall j :: 0 <= j < i ==> !p(fs[j]) by {
        if r.Some? {
          var i :| 0 <= i < |fs[1..]| && fs[1..][i] == r.value && p(fs[1..][i]) && forall j :: 0 <= j < i ==> !p(fs[1..][j]);
          assert fs[i + 1] == r.value;
          assert forall j :: 0 <= j < i + 1 ==> !p(fs[j]) by {
            forall j | 0 <= j < i + 1 ensures !p(fs[j]) {
              if j > 0 {
                assert fs[j] == fs[1..][j - 1];
              }
            }
          }
        }
      }
      r
  }

  /** A 700 (added personal name) carrying `$a`: where the source keeps the thesis author. */
  predicate IsAuthorField(f: Field) {
    f.tag == "700" && f.Has('a')
  }

  /** A 720 (uncontrolled name) carrying `$a`: a contributor, possibly the director. */
  predicate IsContributorField(f: Field) {
    f.tag == "720" && f.Has('a')
  }

  /** A 720 with `$a` whose second indicator is '2': the role the source gives a thesis director. */
  predicate IsDirectorField(f: Field) {
    IsContributorField(f) && f.ind2 == '2'
  }

  /**
   * The author: `$a` of the first 700 that has one (other 700s are ignored).
   * `None` when no 700 has `$a`.
   */
  function MainAuthor(src: Record): (r: Option<string>)
    ensures r.None? <==> forall i :: 0 <= i < |src.fields| ==> !IsAuthorField(src.fields[i])
    ensures r.Some? ==> exists i :: 0 <= i < |src.fields| && IsAuthorField(src.fields[i]) && r == src.fields[i].Get('a')
                                    && forall j :: 0 <= j < i ==> !IsAuthorField(src.fields[j])
  {
    match FirstWhere(src.fields, IsAuthorField)
    case None => None
    case Some(f) => f.Get('a')
  }

  /**
   * The thesis director's field: the first 720 with `$a` and second indicator
   * '2' when there is one, otherwise the first 720 with `$a`.
   */
  function Director(src: Record): (r: Option<Field>)
    ensures r.None? <==> forall i :: 0 <= i < |src.fields| ==> !IsContributorField(src.fields[i])
    ensures (exists i :: 0 <= i < |src.fields| && IsDirectorField(src.fields[i])) ==>
              exists i :: 0 <= i < |src.fields| && r == Some(src.fields[i]) && IsDirectorField(src.fields[i])
                          && forall j :: 0 <= j < i ==> !IsDirectorField(src.fields[j])
    ensures (forall i :: 0 <= i < |src.fields| ==> !IsDirectorField(src.fields[i])) && r.Some? ==>
              exists i :: 0 <= i < |src.fields| && r == Some(src.fields[i]) && IsContributorField(src.fields[i])
                          && forall j :: 0 <= j < i ==> !IsContributorField(src.fields[j])
  {
    match FirstWhere(src.fields, IsDirectorField)
    case Some(f) => Some(f)
    case None => FirstWhere(src.fields, IsContributorField)
  }

  /** `cand_720["a"]`: the chosen contributor's name, `None` when no 720 carries `$a`. */
  function DirectorName(src: Record): (r: Option<string>)
    ensures r.Some? <==> exists i :: 0 <= i < |src.fields| && IsContributorField(src.fields[i])
  {
    match Director(src)
    case Some(f) => f.Get('a')
    case None => None
  }

  // ---------------------------------------------------------------------------
  // subfield builders
  // ---------------------------------------------------------------------------

  /** A subfield the mapper may add: its code and the value, `None` when it is left out. */
  type Piece = (char, Option<string>)

  /**
   * The subfields of the pieces that are present, in the order given: the
   * `subfields.append(...)` calls guarded by `if value:` in `build_final_record`.
   */
  function Present(ps: seq<Piece>): (r: seq<Subfield>)
    ensures |r| <= |ps|
    ensures r == [] <==> forall i :: 0 <= i < |ps| ==> ps[i].1.None?
    decreases |ps|
  {
    if |ps| == 0 then []
    else (if ps[0].1.Some? then [Subfield(ps[0].0, ps[0].1.value)] else []) + Present(ps[1..])
  }

  /** No two pieces share a subfield code. */
  predicate DistinctCodes(ps: seq<Piece>) {
    forall i, j :: 0 <= i < j < |ps| ==> ps[i].0 != ps[j].0
  }

  /** The values an optional value contributes: one when present, none otherwise. */
  function Listed(x: Option<string>): (r: seq<string>)
    ensures |r| <= 1 && (r == [] <==> x.None?)
  {
    if x.Some? then [x.value] else []
  }

  /** Under a code that no piece carries, the present subfields hold no value. */
  lemma {:induction false} ValuesOfPresentAbsent(ps: seq<Piece>, c: char)
    requires forall j :: 0 <= j < |ps| ==> ps[j].0 != c
    ensures ValuesOf(Present(ps), c) == []
    decreases |ps|
  {
    if |ps| > 0 {
      var head := if ps[0].1.Some? then [Subfield(ps[0].0, ps[0].1.value)] else [];
      ValuesOfAppend(head, Present(ps[1..]), c);
      ValuesOfPresentAbsent(ps[1..], c);
    }
  }

  /** Under the code of the `i`-th piece, and of no other, the present subfields hold that piece's value, if any. */
  lemma {:induction false} ValuesOfPresent(ps: seq<Piece>, i: nat)
    requires i < |ps|
    requires forall j :: 0 <= j < |ps| && j != i ==> ps[j].0 != ps[i].0
    ensures ValuesOf(Present(ps), ps[i].0) == Listed(ps[i].1)
    decreases |ps|
  {
    var c := ps[i].0;
    var head := if ps[0].1.Some? then [Subfield(ps[0].0, ps[0].1.value)] else [];
    ValuesOfAppend(head, Present(ps[1..]), c);
    if i == 0 {
      ValuesOfPresentAbsent(ps[1..], c);
    } else {
      ValuesOfPresent(ps[1..], i - 1);
    }
  }

  /** Reading a code back from a field built of distinct-code pieces gives that piece's value. */
  lemma GetPresent(tag: string, ind1: char, ind2: char, ps: seq<Piece>, i: nat)
    requires i < |ps| && DistinctCodes(ps)
    ensures DataField(tag, ind1, ind2, Present(ps)).Get(ps[i].0) == ps[i].1
  {
    ValuesOfPresent(ps, i);
  }

  /** `$b` of the thesis note: the degree type, with "theses" (any case, any blanks) written "Thèse". */
  function DegreeKind(v: string): (r: string)
    ensures Lower(Strip(v)) == "theses" ==> r == "Thèse"
    ensures Lower(Strip(v)) != "theses" ==> r == v
  {
    if Lower(Strip(v)) == "theses" then "Thèse" else v
  }

  /** `[k.strip() for k in values if k and k.strip()]`. */
  function KeywordValues(values: seq<string>): (r: seq<string>)
    ensures |r| <= |values|
    ensures forall i :: 0 <= i < |r| ==> r[i] != ""
    decreases |values|
  {
    if |values| == 0 then []
    else (if Strip(values[0]) != "" then [Strip(values[0])] else []) + KeywordValues(values[1..])
  }

  /** The keywords are exactly the non-blank values, stripped. */
  lemma {:induction false} KeywordValuesMembers(values: seq<string>, x: string)
    ensures x in KeywordValues(values) <==> exists k :: k in values && Strip(k) != "" && x == Strip(k)
    decreases |values|
  {
    if |values| > 0 {
      KeywordValuesMembers(values[1..], x);
      assert forall k :: k in values <==> k == values[0] || k in values[1..];
    }
  }

  /** Keywords of `a + b` are those of `a` followed by those of `b`: order is kept. */
  lemma {:induction false} KeywordValuesAppend(a: seq<string>, b: seq<string>)
    ensures KeywordValues(a + b) == KeywordValues(a) + KeywordValues(b)
    decreases |a|
  {
    if |a| == 0 {
      assert a + b == b;
    } else {
      assert (a + b)[0] == a[0] && (a + b)[1..] == a[1..] + b;
      KeywordValuesAppend(a[1..], b);
    }
  }

  /** One value gives its stripped self, or nothing when it is blank. */
  lemma KeywordValuesSingle(k: string)
    ensures KeywordValues([k]) == if Strip(k) != "" then [Strip(k)] else []
  {
    assert [k][1..] == [];
  }

  predicate Distinct(xs: seq<string>) {
    forall i, j :: 0 <= i < j < |xs| ==> xs[i] != xs[j]
  }

  /**
   * Exact-match de-duplication keeping the first occurrence of each value, in
   * order (the reference definition the loop in `build_final_record` computes).
   */
  function Dedup(xs: seq<string>): (r: seq<string>)
    ensures forall x :: x in r <==> x in xs
    ensures Distinct(r)
    ensures |r| <= |xs|
    decreases |xs|
  {
    if |xs| == 0 then []
    else
      var init := xs[..|xs| - 1];
      assert xs == init + [xs[|xs| - 1]];
      var d := Dedup(init);
      if xs[|xs| - 1] in d then d else d + [xs[|xs| - 1]]
  }

  /** The position of the first occurrence of `x` in `xs`. */
  function FirstIndex(xs: seq<string>, x: string): (p: nat)
    requires x in xs
    ensures p < |xs| && xs[p] == x && x !in xs[..p]
  {
    if xs[0] == x then 0
    else
      assert x in xs[1..];
      var q := FirstIndex(xs[1..], x);
      assert xs[..q + 1] == [xs[0]] + xs[1..][..q];
      q + 1
  }

  /** An occurrence with no earlier one is the first occurrence. */
  lemma FirstIndexUnique(xs: seq<string>, x: string, p: nat)
    requires p < |xs| && xs[p] == x && x !in xs[..p]
    ensures FirstIndex(xs, x) == p
  {
  }

  /** `Dedup` lists the values in the order of their first occurrence in the input. */
  lemma {:induction false} DedupKeepsFirstSeenOrder(xs: seq<string>)
    ensures forall i, j :: 0 <= i < j < |Dedup(xs)| ==> FirstIndex(xs, Dedup(xs)[i]) < FirstIndex(xs, Dedup(xs)[j])
    decreases |xs|
  {
    if |xs| > 0 {
      var init := xs[..|xs| - 1];
      var last := xs[|xs| - 1];
      assert xs == init + [last];
      var d := Dedup(init);
      DedupKeepsFirstSeenOrder(init);
      forall y | y in init
        ensures FirstIndex(xs, y) == FirstIndex(init, y)
      {
        var p := FirstIndex(init, y);
        assert xs[..p] == init[..p];
        FirstIndexUnique(xs, y, p);
      }
      var r := Dedup(xs);
      if last in d {
        assert r == d;
        forall i, j | 0 <= i < j < |r|
          ensures FirstIndex(xs, r[i]) < FirstIndex(xs, r[j])
        {
          assert r[i] in init && r[j] in init;
        }
      } else {
        assert r == d + [last];
        assert xs[..|init|] == init;
        FirstIndexUnique(xs, last, |init|);
        forall i, j | 0 <= i < j < |r|
          ensures FirstIndex(xs, r[i]) < FirstIndex(xs, r[j])
        {
          assert r[i] == d[i] && r[i] in init;
          if j < |d| {
            assert r[j] == d[j] && r[j] in init;
          }
        }
      }
    }
  }

  /** The `seen`/`deduped` loop of `build_final_record`, which computes `Dedup`. */
  method DedupKeywords(keywords: seq<string>) returns (deduped: seq<string>)
    ensures deduped == Dedup(keywords)
  {
    var seen: set<string> := {};
    deduped := [];
    var i := 0;
    while i < |keywords|
      invariant 0 <= i <= |keywords|
      invariant deduped == Dedup(keywords[..i])
      invariant forall x :: x in seen <==> x in deduped
    {
      var k := keywords[i];
      assert keywords[..i + 1][..i] == keywords[..i];
      if k !in seen {
        seen := seen + {k};
        deduped := deduped + [k];
      }
      i := i + 1;
    }
    assert keywords[..i] == keywords;
  }

  /** A list without repeats is its own de-duplication. */
  lemma {:induction false} DedupOfDistinct(xs: seq<string>)
    requires Distinct(xs)
    ensures Dedup(xs) == xs
    decreases |xs|
  {
    if |xs| > 0 {
      var init := xs[..|xs| - 1];
      DedupOfDistinct(init);
      assert xs[|xs| - 1] !in init;
      assert xs == init + [xs[|xs| - 1]];
    }
  }

  /** De-duplicating twice is de-duplicating once. */
  lemma DedupIdempotent(xs: seq<string>)
    ensures Dedup(Dedup(xs)) == Dedup(xs)
  {
    DedupOfDistinct(Dedup(xs));
  }

  /** The author keywords of the record: every 653 `$a`, stripped, blanks dropped, repeats dropped. */
  function Keywords(src: Record): seq<string> {
    Dedup(KeywordValues(FGetAll(src.fields, "653", 'a')))
  }
  // ---------------------------------------------------------------------------
  // what the mapper reads from the source
  // ---------------------------------------------------------------------------

  /** The Infoscience identifier: the data of the first 001, when the source has one. */
  function SourceId(src: Record): (r: Option<string>)
    ensures r.Some? ==> exists i :: 0 <= i < |src.fields| && src.fields[i].tag == "001" && src.fields[i].ControlField?
    ensures (forall i :: 0 <= i < |src.fields| ==> src.fields[i].tag != "001") ==> r.None?
    ensures forall i ::
              (0 <= i < |src.fields| && src.fields[i].tag == "001" && forall j :: 0 <= j < i ==> src.fields[j].tag != "001")
              ==> r == src.fields[i].Data()
  {
    FirstWithTagIsFirst(src.fields, "001");
    match FirstWithTag(src.fields, "001")
    case None => None
    case Some(f) => f.Data()
  }

  /** `$c` of the thesis note: "publisher place", a missing part written `""`, the whole stripped. */
  function GrantingBody(place: Option<string>, publisher: Option<string>): (r: Option<string>)
    ensures r.Some? <==> Truthy(place) || Truthy(publisher)
    ensures Truthy(place) && !Truthy(publisher) ==> r == Some(Strip(place.value))
    ensures Truthy(publisher) && !Truthy(place) ==> r == Some(Strip(publisher.value))
    ensures Truthy(publisher) && Truthy(place) && Trimmed(publisher.value) && Trimmed(place.value) ==>
              r == Some(publisher.value + " " + place.value)
  {
    if Truthy(place) || Truthy(publisher) then
      var joined := OrEmpty(publisher) + " " + OrEmpty(place);
      if !Truthy(publisher) then
        assert joined == " " + place.value;
        StripLeadingSpace(place.value);
        Some(Strip(joined))
      else if !Truthy(place) then
        assert joined == publisher.value + " ";
        StripTrailingSpace(publisher.value);
        Some(Strip(joined))
      else
        StripJoinTrimmed(publisher.value, place.value);
        Some(Strip(joined))
    else None
  }

  /**
   * Every value the final record is made of, as `build_final_record` reads it
   * from the source (its local variables `cf001`, `author700a`, `t_a`, ...).
   */
  datatype ThesisValues = ThesisValues(
    id: Option<string>,          // 001
    author: Option<string>,      // the first 700 `$a`
    title: Option<string>,       // 245 `$a`
    subtitle: Option<string>,    // 245 `$b`
    statement: Option<string>,   // the author, inverted, for 245 `$c`
    place: Option<string>,       // 260 `$a`
    publisher: Option<string>,   // 260 `$b`, "EPFL" written out
    date: Option<string>,        // 260 `$c`
    extent: Option<string>,      // 300 `$a`, with " pages"
    degree: Option<string>,      // 336 `$a` as the degree type
    grantor: Option<string>,     // 260 `$b` and `$a` for the thesis note
    discipline: Option<string>,  // 920 `$b`
    number: Option<string>,      // 088 `$a`
    keywords: seq<string>,       // the 653 `$a` values, cleaned
    director: Option<string>)    // `$a` of the director's 720

  /** What `build_final_record` reads from the source record. */
  function ReadValues(src: Record): ThesisValues
  {
    var author := MainAuthor(src);
    var kind := FGet(src, "336", 'a');
    ThesisValues(
      SourceId(src),
      author,
      FGet(src, "245", 'a'),
      FGet(src, "245", 'b'),
      InvertNameComma(author),
      FGet(src, "260", 'a'),
      ExpandEpfl(FGet(src, "260", 'b')),
      FGet(src, "260", 'c'),
      EnsurePagesSuffix(FGet(src, "300", 'a')),
      if Truthy(kind) then Some(DegreeKind(kind.value)) else None,
      GrantingBody(FGet(src, "260", 'a'), FGet(src, "260", 'b')),
      FGet(src, "920", 'b'),
      FGet(src, "088", 'a'),
      Keywords(src),
      DirectorName(src))
  }

  // ---------------------------------------------------------------------------
  // the fields of the final record
  // ---------------------------------------------------------------------------

  /** 001, copied when the identifier is non-empty. */
  function IdFields(v: ThesisValues): (r: seq<Field>)
    ensures |r| <= 1 && forall g :: g in r ==> g.tag == "001"
  {
    if Truthy(v.id) then [ControlField("001", v.id.value)] else []
  }

  function MainEntryPieces(v: ThesisValues): seq<Piece> {
    [('a', NonEmpty(v.author)), ('4', Some("aut"))]
  }

  /** 100: the author when there is one, always the relator `$4` "aut". */
  function F100(v: ThesisValues): Field {
    DataField("100", '1', ' ', Present(MainEntryPieces(v)))
  }

  function TitlePieces(v: ThesisValues): seq<Piece> {
    [('a', NonEmpty(v.title)), ('b', NonEmpty(v.subtitle)), ('c', NonEmpty(v.statement))]
  }

  /** 245, only when title, subtitle or statement of responsibility is non-empty. */
  function TitleFields(v: ThesisValues): (r: seq<Field>)
    ensures |r| <= 1 && forall g :: g in r ==> g.tag == "245"
  {
    var subs := Present(TitlePieces(v));
    if subs != [] then [DataField("245", '1', '0', subs)] else []
  }

  function PublicationPieces(v: ThesisValues): seq<Piece> {
    [('a', NonEmpty(v.place)), ('b', NonEmpty(v.publisher)), ('c', NonEmpty(v.date))]
  }

  /** 264, only when place, publisher or date is non-empty. */
  function PublicationFields(v: ThesisValues): (r: seq<Field>)
    ensures |r| <= 1 && forall g :: g in r ==> g.tag == "264"
  {
    var subs := Present(PublicationPieces(v));
    if subs != [] then [DataField("264", ' ', '1', subs)] else []
  }

  function DescriptionPieces(v: ThesisValues): seq<Piece> {
    [('a', NonEmpty(v.extent)), ('b', Some("illustrations")), ('c', Some("28 cm"))]
  }

  /** 300: the extent when there is one, always `$b` and `$c`. */
  function F300(v: ThesisValues): Field {
    DataField("300", ' ', ' ', Present(DescriptionPieces(v)))
  }

  /** The report number as the thesis note writes it. */
  function NumberNote(number: Option<string>): (r: Option<string>)
    ensures r.Some? <==> Truthy(number)
  {
    if Truthy(number) then Some("n° " + number.value) else None
  }

  /** `$c` is added whenever place or publisher is given, even if it strips to nothing. */
  function ThesisNotePieces(v: ThesisValues): seq<Piece> {
    [('b', NonEmpty(v.degree)), ('c', v.grantor), ('d', NonEmpty(v.discipline)), ('o', NumberNote(v.number))]
  }

  /** 502, only when at least one of its four pieces is present. */
  function ThesisNoteFields(v: ThesisValues): (r: seq<Field>)
    ensures |r| <= 1 && forall g :: g in r ==> g.tag == "502"
  {
    var subs := Present(ThesisNotePieces(v));
    if subs != [] then [DataField("502", ' ', ' ', subs)] else []
  }

  /** The keywords note text: the keywords joined by "; ", every "||" then replaced by "; ". */
  function KeywordsNote(keywords: seq<string>): string {
    KeywordsIntro + Replace(Join("; ", keywords), "||", "; ")
  }

  function AbstractPieces(v: ThesisValues): seq<Piece> {
    [('a', if v.keywords != [] then Some(KeywordsNote(v.keywords)) else None), ('5', Some(CatalogingAgency))]
  }

  /** 520: the keywords note when a keyword survives, always the agency in `$5`. */
  function F520(v: ThesisValues): Field {
    DataField("520", ' ', ' ', Present(AbstractPieces(v)))
  }

  function DirectorPieces(v: ThesisValues): seq<Piece> {
    [('a', v.director), ('4', Some("dgs"))]
  }

  /** 700: the director's name when a 720 was chosen (even an empty one), always the relator "dgs". */
  function F700(v: ThesisValues): Field {
    DataField("700", '1', ' ', Present(DirectorPieces(v)))
  }

  /** The fields of the final record in catalogue order, each part that depends on the source given as a block. */
  function Layout(id: seq<Field>, main: Field, title: seq<Field>, pub: seq<Field>, desc: Field,
                  note: seq<Field>, abs: Field, added: Field): seq<Field>
  {
    id + [F008] + [F040] + [main] + title + pub + [desc] + [F336] + [F337] + [F338] + note + [abs] + GenreFields + [added]
  }

  /** Every field of the block carries tag `t`. */
  predicate AllTagged(fs: seq<Field>, t: string) {
    forall g :: g in fs ==> g.tag == t
  }

  /** Each block of a layout holds fields of its own tag only. */
  predicate WellTagged(id: seq<Field>, main: Field, title: seq<Field>, pub: seq<Field>, desc: Field,
                       note: seq<Field>, abs: Field, added: Field)
  {
    && AllTagged(id, "001") && main.tag == "100" && AllTagged(title, "245") && AllTagged(pub, "264")
    && desc.tag == "300" && AllTagged(note, "502") && abs.tag == "520" && added.tag == "700"
  }

  /** The final record laid out from the values read: fixed leader, fields in catalogue order. */
  function Assemble(v: ThesisValues): (dst: Record)
    ensures dst.leader == FinalLeader
    ensures WellTagged(IdFields(v), F100(v), TitleFields(v), PublicationFields(v), F300(v), ThesisNoteFields(v), F520(v), F700(v))
  {
    Record(FinalLeader, Layout(IdFields(v), F100(v), TitleFields(v), PublicationFields(v), F300(v), ThesisNoteFields(v), F520(v), F700(v)))
  }

  /**
   * `build_final_record`. 001, 245, 264 and 502 appear only when the source
   * supplies something for them; every other field is always present.
   */
  function BuildFinalRecord(src: Record): (dst: Record)
    ensures dst.leader == FinalLeader
  {
    Assemble(ReadValues(src))
  }

  /**
   * `build_final_record` as the source writes it: `src["001"]` raises
   * `KeyError` on a record without a 001 field, before the `is not None`
   * test that was meant to handle that case is reached.
   */
  function BuildFinalRecordAsWritten(src: Record): (r: Result<Record>)
    ensures r.Failed? <==> forall i :: 0 <= i < |src.fields| ==> src.fields[i].tag != "001"
    ensures r.Ok? ==> r.value == BuildFinalRecord(src)
  {
    FirstWithTagIsFirst(src.fields, "001");
    if FirstWithTag(src.fields, "001").None? then Failed("KeyError: '001'") else Ok(BuildFinalRecord(src))
  }

  // ---------------------------------------------------------------------------
  // what the final record holds
  // ---------------------------------------------------------------------------

  /** `FieldsWithTag` distributes over the blocks of a layout. */
  lemma LayoutByBlock(id: seq<Field>, main: Field, title: seq<Field>, pub: seq<Field>, desc: Field,
                      note: seq<Field>, abs: Field, added: Field, tag: string)
    ensures FieldsWithTag(Layout(id, main, title, pub, desc, note, abs, added), tag)
         == FieldsWithTag(id, tag) + FieldsWithTag([F008], tag) + FieldsWithTag([F040], tag)
          + FieldsWithTag([main], tag) + FieldsWithTag(title, tag) + FieldsWithTag(pub, tag)
          + FieldsWithTag([desc], tag) + FieldsWithTag([F336], tag) + FieldsWithTag([F337], tag) + FieldsWithTag([F338], tag)
          + FieldsWithTag(note, tag) + FieldsWithTag([abs], tag) + FieldsWithTag(GenreFields, tag)
          + FieldsWithTag([added], tag)
  {
    var p1 := id + [F008];
    var p2 := p1 + [F040];
    var p3 := p2 + [main];
    var p4 := p3 + title;
    var p5 := p4 + pub;
    var p6 := p5 + [desc];
    var p7 := p6 + [F336];
    var p8 := p7 + [F337];
    var p9 := p8 + [F338];
    var p10 := p9 + note;
    var p11 := p10 + [abs];
    var p12 := p11 + GenreFields;
    FieldsWithTagAppend(id, [F008], tag);
    FieldsWithTagAppend(p1, [F040], tag);
    FieldsWithTagAppend(p2, [main], tag);
    FieldsWithTagAppend(p3, title, tag);
    FieldsWithTagAppend(p4, pub, tag);
    FieldsWithTagAppend(p5, [desc], tag);
    FieldsWithTagAppend(p6, [F336], tag);
    FieldsWithTagAppend(p7, [F337], tag);
    FieldsWithTagAppend(p8, [F338], tag);
    FieldsWithTagAppend(p9, note, tag);
    FieldsWithTagAppend(p10, [abs], tag);
    FieldsWithTagAppend(p11, GenreFields, tag);
    FieldsWithTagAppend(p12, [added], tag);
  }

  /** The fixed fields contribute only under their own tags. */
  lemma FixedBlocks(tag: string)
    ensures FieldsWithTag([F008], tag) == When("008", tag, [F008])
    ensures FieldsWithTag([F040], tag) == When("040", tag, [F040])
    ensures FieldsWithTag([F336], tag) == When("336", tag, [F336])
    ensures FieldsWithTag([F337], tag) == When("337", tag, [F337])
    ensures FieldsWithTag([F338], tag) == When("338", tag, [F338])
    ensures FieldsWithTag(GenreFields, tag) == When("655", tag, GenreFields)
  {
    BlockWithTag([F008], "008", tag);
    BlockWithTag([F040], "040", tag);
    BlockWithTag([F336], "336", tag);
    BlockWithTag([F337], "337", tag);
    BlockWithTag([F338], "338", tag);
    BlockWithTag(GenreFields, "655", tag);
  }

  /** The variable blocks of a well-tagged layout contribute only under their own tags. */
  lemma VariableBlocks(id: seq<Field>, main: Field, title: seq<Field>, pub: seq<Field>, desc: Field,
                       note: seq<Field>, abs: Field, added: Field, tag: string)
    requires WellTagged(id, main, title, pub, desc, note, abs, added)
    ensures FieldsWithTag(id, tag) == When("001", tag, id)
    ensures FieldsWithTag([main], tag) == When("100", tag, [main])
    ensures FieldsWithTag(title, tag) == When("245", tag, title)
    ensures FieldsWithTag(pub, tag) == When("264", tag, pub)
    ensures FieldsWithTag([desc], tag) == When("300", tag, [desc])
    ensures FieldsWithTag(note, tag) == When("502", tag, note)
    ensures FieldsWithTag([abs], tag) == When("520", tag, [abs])
    ensures FieldsWithTag([added], tag) == When("700", tag, [added])
  {
    BlockWithTag(id, "001", tag);
    BlockWithTag([main], "100", tag);
    BlockWithTag(title, "245", tag);
    BlockWithTag(pub, "264", tag);
    BlockWithTag([desc], "300", tag);
    BlockWithTag(note, "502", tag);
    BlockWithTag([abs], "520", tag);
    BlockWithTag([added], "700", tag);
  }

  /** The fields of a well-tagged layout carrying `tag`: each block contributes only under its own tag. */
  lemma LayoutWithTag(id: seq<Field>, main: Field, title: seq<Field>, pub: seq<Field>, desc: Field,
                      note: seq<Field>, abs: Field, added: Field, tag: string)
    requires WellTagged(id, main, title, pub, desc, note, abs, added)
    ensures FieldsWithTag(Layout(id, main, title, pub, desc, note, abs, added), tag)
         == When("001", tag, id) + When("008", tag, [F008]) + When("040", tag, [F040])
          + When("100", tag, [main]) + When("245", tag, title) + When("264", tag, pub)
          + When("300", tag, [desc]) + When("336", tag, [F336]) + When("337", tag, [F337]) + When("338", tag, [F338])
          + When("502", tag, note) + When("520", tag, [abs]) + When("655", tag, GenreFields)
          + When("700", tag, [added])
  {
    LayoutByBlock(id, main, title, pub, desc, note, abs, added, tag);
    FixedBlocks(tag);
    VariableBlocks(id, main, title, pub, desc, note, abs, added, tag);
  }

  /** A sum of fourteen blocks of which all but the `k`-th (from 1) are empty is that block. */
  lemma OnlyBlock(k: nat, a1: seq<Field>, a2: seq<Field>, a3: seq<Field>, a4: seq<Field>, a5: seq<Field>, a6: seq<Field>, a7: seq<Field>,
                  a8: seq<Field>, a9: seq<Field>, a10: seq<Field>, a11: seq<Field>, a12: seq<Field>, a13: seq<Field>, a14: seq<Field>)
    requires (k == 1 || a1 == []) && (k == 2 || a2 == []) && (k == 3 || a3 == []) && (k == 4 || a4 == [])
    requires (k == 5 || a5 == []) && (k == 6 || a6 == []) && (k == 7 || a7 == []) && (k == 8 || a8 == [])
    requires (k == 9 || a9 == []) && (k == 10 || a10 == []) && (k == 11 || a11 == []) && (k == 12 || a12 == [])
    requires (k == 13 || a13 == []) && (k == 14 || a14 == [])
    ensures var sum := a1 + a2 + a3 + a4 + a5 + a6 + a7 + a8 + a9 + a10 + a11 + a12 + a13 + a14;
            && (k == 1 ==> sum == a1) && (k == 2 ==> sum == a2) && (k == 3 ==> sum == a3) && (k == 4 ==> sum == a4)
            && (k == 5 ==> sum == a5) && (k == 6 ==> sum == a6) && (k == 7 ==> sum == a7) && (k == 8 ==> sum == a8)
            && (k == 9 ==> sum == a9) && (k == 10 ==> sum == a10) && (k == 11 ==> sum == a11) && (k == 12 ==> sum == a12)
            && (k == 13 ==> sum == a13) && (k == 14 ==> sum == a14)
  {
  }

  /** The fields of the final record carrying `tag`: each block contributes only under its own tag. */
  lemma AssembledWithTag(v: ThesisValues, tag: string)
    ensures FieldsWithTag(Assemble(v).fields, tag)
         == When("001", tag, IdFields(v)) + When("008", tag, [F008]) + When("040", tag, [F040])
          + When("100", tag, [F100(v)]) + When("245", tag, TitleFields(v)) + When("264", tag, PublicationFields(v))
          + When("300", tag, [F300(v)]) + When("336", tag, [F336]) + When("337", tag, [F337]) + When("338", tag, [F338])
          + When("502", tag, ThesisNoteFields(v)) + When("520", tag, [F520(v)]) + When("655", tag, GenreFields)
          + When("700", tag, [F700(v)])
  {
    LayoutWithTag(IdFields(v), F100(v), TitleFields(v), PublicationFields(v), F300(v), ThesisNoteFields(v), F520(v), F700(v), tag);
  }

  /** The final record's 001 fields: the identifier's block. */
  lemma Fields001(v: ThesisValues)
    ensures FieldsWithTag(Assemble(v).fields, "001") == IdFields(v)
  {
    var tag := "001";
    AssembledWithTag(v, tag);
    OnlyBlock(1, When("001", tag, IdFields(v)), When("008", tag, [F008]), When("040", tag, [F040]), When("100", tag, [F100(v)]), When("245", tag, TitleFields(v)), When("264", tag, PublicationFields(v)), When("300", tag, [F300(v)]), When("336", tag, [F336]), When("337", tag, [F337]), When("338", tag, [F338]), When("502", tag, ThesisNoteFields(v)), When("520", tag, [F520(v)]), When("655", tag, GenreFields), When("700", tag, [F700(v)]));
  }

  /** Exactly the fixed 008. */
  lemma Fields008(v: ThesisValues)
    ensures FieldsWithTag(Assemble(v).fields, "008") == [F008]
  {
    var tag := "008";
    AssembledWithTag(v, tag);
    OnlyBlock(2, When("001", tag, IdFields(v)), When("008", tag, [F008]), When("040", tag, [F040]), When("100", tag, [F100(v)]), When("245", tag, TitleFields(v)), When("264", tag, PublicationFields(v)), When("300", tag, [F300(v)]), When("336", tag, [F336]), When("337", tag, [F337]), When("338", tag, [F338]), When("502", tag, ThesisNoteFields(v)), When("520", tag, [F520(v)]), When("655", tag, GenreFields), When("700", tag, [F700(v)]));
  }

  /** Exactly the fixed 040 (cataloguing agency). */
  lemma Fields040(v: ThesisValues)
    ensures FieldsWithTag(Assemble(v).fields, "040") == [F040]
  {
    var tag := "040";
    AssembledWithTag(v, tag);
    OnlyBlock(3, When("001", tag, IdFields(v)), When("008", tag, [F008]), When("040", tag, [F040]), When("100", tag, [F100(v)]), When("245", tag, TitleFields(v)), When("264", tag, PublicationFields(v)), When("300", tag, [F300(v)]), When("336", tag, [F336]), When("337", tag, [F337]), When("338", tag, [F338]), When("502", tag, ThesisNoteFields(v)), When("520", tag, [F520(v)]), When("655", tag, GenreFields), When("700", tag, [F700(v)]));
  }

  /** Exactly one 100 (main entry). */
  lemma Fields100(v: ThesisValues)
    ensures FieldsWithTag(Assemble(v).fields, "100") == [F100(v)]
  {
    var tag := "100";
    AssembledWithTag(v, tag);
    OnlyBlock(4, When("001", tag, IdFields(v)), When("008", tag, [F008]), When("040", tag, [F040]), When("100", tag, [F100(v)]), When("245", tag, TitleFields(v)), When("264", tag, PublicationFields(v)), When("300", tag, [F300(v)]), When("336", tag, [F336]), When("337", tag, [F337]), When("338", tag, [F338]), When("502", tag, ThesisNoteFields(v)), When("520", tag, [F520(v)]), When("655", tag, GenreFields), When("700", tag, [F700(v)]));
  }

  /** The 245 fields: the title block, at most one. */
  lemma Fields245(v: ThesisValues)
    ensures FieldsWithTag(Assemble(v).fields, "245") == TitleFields(v)
  {
    var tag := "245";
    AssembledWithTag(v, tag);
    OnlyBlock(5, When("001", tag, IdFields(v)), When("008", tag, [F008]), When("040", tag, [F040]), When("100", tag, [F100(v)]), When("245", tag, TitleFields(v)), When("264", tag, PublicationFields(v)), When("300", tag, [F300(v)]), When("336", tag, [F336]), When("337", tag, [F337]), When("338", tag, [F338]), When("502", tag, ThesisNoteFields(v)), When("520", tag, [F520(v)]), When("655", tag, GenreFields), When("700", tag, [F700(v)]));
  }

  /** The 264 fields: the publication block, at most one. */
  lemma Fields264(v: ThesisValues)
    ensures FieldsWithTag(Assemble(v).fields, "264") == PublicationFields(v)
  {
    var tag := "264";
    AssembledWithTag(v, tag);
    OnlyBlock(6, When("001", tag, IdFields(v)), When("008", tag, [F008]), When("040", tag, [F040]), When("100", tag, [F100(v)]), When("245", tag, TitleFields(v)), When("264", tag, PublicationFields(v)), When("300", tag, [F300(v)]), When("336", tag, [F336]), When("337", tag, [F337]), When("338", tag, [F338]), When("502", tag, ThesisNoteFields(v)), When("520", tag, [F520(v)]), When("655", tag, GenreFields), When("700", tag, [F700(v)]));
  }

  /** Exactly one 300 (physical description). */
  lemma Fields300(v: ThesisValues)
    ensures FieldsWithTag(Assemble(v).fields, "300") == [F300(v)]
  {
    var tag := "300";
    AssembledWithTag(v, tag);
    OnlyBlock(7, When("001", tag, IdFields(v)), When("008", tag, [F008]), When("040", tag, [F040]), When("100", tag, [F100(v)]), When("245", tag, TitleFields(v)), When("264", tag, PublicationFields(v)), When("300", tag, [F300(v)]), When("336", tag, [F336]), When("337", tag, [F337]), When("338", tag, [F338]), When("502", tag, ThesisNoteFields(v)), When("520", tag, [F520(v)]), When("655", tag, GenreFields), When("700", tag, [F700(v)]));
  }

  /** Exactly the fixed 336. */
  lemma Fields336(v: ThesisValues)
    ensures FieldsWithTag(Assemble(v).fields, "336") == [F336]
  {
    var tag := "336";
    AssembledWithTag(v, tag);
    OnlyBlock(8, When("001", tag, IdFields(v)), When("008", tag, [F008]), When("040", tag, [F040]), When("100", tag, [F100(v)]), When("245", tag, TitleFields(v)), When("264", tag, PublicationFields(v)), When("300", tag, [F300(v)]), When("336", tag, [F336]), When("337", tag, [F337]), When("338", tag, [F338]), When("502", tag, ThesisNoteFields(v)), When("520", tag, [F520(v)]), When("655", tag, GenreFields), When("700", tag, [F700(v)]));
  }

  /** Exactly the fixed 337. */
  lemma Fields337(v: ThesisValues)
    ensures FieldsWithTag(Assemble(v).fields, "337") == [F337]
  {
    var tag := "337";
    AssembledWithTag(v, tag);
    OnlyBlock(9, When("001", tag, IdFields(v)), When("008", tag, [F008]), When("040", tag, [F040]), When("100", tag, [F100(v)]), When("245", tag, TitleFields(v)), When("264", tag, PublicationFields(v)), When("300", tag, [F300(v)]), When("336", tag, [F336]), When("337", tag, [F337]), When("338", tag, [F338]), When("502", tag, ThesisNoteFields(v)), When("520", tag, [F520(v)]), When("655", tag, GenreFields), When("700", tag, [F700(v)]));
  }

  /** Exactly the fixed 338. */
  lemma Fields338(v: ThesisValues)
    ensures FieldsWithTag(Assemble(v).fields, "338") == [F338]
  {
    var tag := "338";
    AssembledWithTag(v, tag);
    OnlyBlock(10, When("001", tag, IdFields(v)), When("008", tag, [F008]), When("040", tag, [F040]), When("100", tag, [F100(v)]), When("245", tag, TitleFields(v)), When("264", tag, PublicationFields(v)), When("300", tag, [F300(v)]), When("336", tag, [F336]), When("337", tag, [F337]), When("338", tag, [F338]), When("502", tag, ThesisNoteFields(v)), When("520", tag, [F520(v)]), When("655", tag, GenreFields), When("700", tag, [F700(v)]));
  }

  /** The 502 fields: the thesis-note block, at most one. */
  lemma Fields502(v: ThesisValues)
    ensures FieldsWithTag(Assemble(v).fields, "502") == ThesisNoteFields(v)
  {
    var tag := "502";
    AssembledWithTag(v, tag);
    OnlyBlock(11, When("001", tag, IdFields(v)), When("008", tag, [F008]), When("040", tag, [F040]), When("100", tag, [F100(v)]), When("245", tag, TitleFields(v)), When("264", tag, PublicationFields(v)), When("300", tag, [F300(v)]), When("336", tag, [F336]), When("337", tag, [F337]), When("338", tag, [F338]), When("502", tag, ThesisNoteFields(v)), When("520", tag, [F520(v)]), When("655", tag, GenreFields), When("700", tag, [F700(v)]));
  }

  /** Exactly one 520 (keywords note). */
  lemma Fields520(v: ThesisValues)
    ensures FieldsWithTag(Assemble(v).fields, "520") == [F520(v)]
  {
    var tag := "520";
    AssembledWithTag(v, tag);
    OnlyBlock(12, When("001", tag, IdFields(v)), When("008", tag, [F008]), When("040", tag, [F040]), When("100", tag, [F100(v)]), When("245", tag, TitleFields(v)), When("264", tag, PublicationFields(v)), When("300", tag, [F300(v)]), When("336", tag, [F336]), When("337", tag, [F337]), When("338", tag, [F338]), When("502", tag, ThesisNoteFields(v)), When("520", tag, [F520(v)]), When("655", tag, GenreFields), When("700", tag, [F700(v)]));
  }

  /** Exactly the three genre terms. */
  lemma Fields655(v: ThesisValues)
    ensures FieldsWithTag(Assemble(v).fields, "655") == GenreFields
  {
    var tag := "655";
    AssembledWithTag(v, tag);
    OnlyBlock(13, When("001", tag, IdFields(v)), When("008", tag, [F008]), When("040", tag, [F040]), When("100", tag, [F100(v)]), When("245", tag, TitleFields(v)), When("264", tag, PublicationFields(v)), When("300", tag, [F300(v)]), When("336", tag, [F336]), When("337", tag, [F337]), When("338", tag, [F338]), When("502", tag, ThesisNoteFields(v)), When("520", tag, [F520(v)]), When("655", tag, GenreFields), When("700", tag, [F700(v)]));
  }

  /** Exactly one 700 (thesis director). */
  lemma Fields700(v: ThesisValues)
    ensures FieldsWithTag(Assemble(v).fields, "700") == [F700(v)]
  {
    var tag := "700";
    AssembledWithTag(v, tag);
    OnlyBlock(14, When("001", tag, IdFields(v)), When("008", tag, [F008]), When("040", tag, [F040]), When("100", tag, [F100(v)]), When("245", tag, TitleFields(v)), When("264", tag, PublicationFields(v)), When("300", tag, [F300(v)]), When("336", tag, [F336]), When("337", tag, [F337]), When("338", tag, [F338]), When("502", tag, ThesisNoteFields(v)), When("520", tag, [F520(v)]), When("655", tag, GenreFields), When("700", tag, [F700(v)]));
  }

  // ---------------------------------------------------------------------------
  // what each field of the final record reads back as
  // ---------------------------------------------------------------------------

  /** A field of distinct-code pieces reads back, code by code, as the pieces. */
  lemma ReadsBack(tag: string, ind1: char, ind2: char, ps: seq<Piece>)
    requires DistinctCodes(ps)
    ensures forall i :: 0 <= i < |ps| ==> DataField(tag, ind1, ind2, Present(ps)).Get(ps[i].0) == ps[i].1
  {
    forall i | 0 <= i < |ps|
      ensures DataField(tag, ind1, ind2, Present(ps)).Get(ps[i].0) == ps[i].1
    {
      GetPresent(tag, ind1, ind2, ps, i);
    }
  }

  /**
   * In a record whose only field with `tag` is built from distinct-code pieces,
   * and present just when some piece is, `fget` reads every piece back.
   */
  lemma FGetReadsPieces(r: Record, tag: string, ind1: char, ind2: char, ps: seq<Piece>)
    requires DistinctCodes(ps)
    requires var subs := Present(ps);
             FieldsWithTag(r.fields, tag) == if subs != [] then [DataField(tag, ind1, ind2, subs)] else []
    ensures forall i :: 0 <= i < |ps| ==> FGet(r, tag, ps[i].0) == ps[i].1
  {
    ReadsBack(tag, ind1, ind2, ps);
  }

  /** The final record's 001 is the identifier read when that is non-empty, and absent otherwise. */
  lemma IdentifierCopied(v: ThesisValues)
    ensures FieldsWithTag(Assemble(v).fields, "001") == if Truthy(v.id) then [ControlField("001", v.id.value)] else []
  {
    Fields001(v);
  }

  /** A record whose 100s are the main entry has one, with the author when known and the relator "aut". */
  lemma MainEntryReadBack(r: Record, v: ThesisValues)
    requires FieldsWithTag(r.fields, "100") == [F100(v)]
    ensures |FieldsWithTag(r.fields, "100")| == 1
    ensures FGet(r, "100", 'a') == NonEmpty(v.author)
    ensures FGet(r, "100", '4') == Some("aut")
  {
    FGetReadsPieces(r, "100", '1', ' ', MainEntryPieces(v));
    assert MainEntryPieces(v)[0].0 == 'a' && MainEntryPieces(v)[1].0 == '4';
  }

  /** The final record always has one 100, with the author when known and the relator "aut". */
  lemma MainEntry(v: ThesisValues)
    ensures |FieldsWithTag(Assemble(v).fields, "100")| == 1
    ensures FGet(Assemble(v), "100", 'a') == NonEmpty(v.author)
    ensures FGet(Assemble(v), "100", '4') == Some("aut")
  {
    Fields100(v);
    MainEntryReadBack(Assemble(v), v);
  }

  /** A record whose 245s are the title block has one exactly when title, subtitle or statement is non-empty, reading back as them. */
  lemma TitleReadBack(r: Record, v: ThesisValues)
    requires FieldsWithTag(r.fields, "245") == TitleFields(v)
    ensures |FieldsWithTag(r.fields, "245")| <= 1
    ensures FieldsWithTag(r.fields, "245") != [] <==> Truthy(v.title) || Truthy(v.subtitle) || Truthy(v.statement)
    ensures FGet(r, "245", 'a') == NonEmpty(v.title)
    ensures FGet(r, "245", 'b') == NonEmpty(v.subtitle)
    ensures FGet(r, "245", 'c') == NonEmpty(v.statement)
  {
    FGetReadsPieces(r, "245", '1', '0', TitlePieces(v));
    assert TitlePieces(v)[0].0 == 'a' && TitlePieces(v)[1].0 == 'b' && TitlePieces(v)[2].0 == 'c';
  }

  /** The final record has a 245 exactly when title, subtitle or statement is non-empty, and it reads back as them. */
  lemma TitleStatement(v: ThesisValues)
    ensures |FieldsWithTag(Assemble(v).fields, "245")| <= 1
    ensures FieldsWithTag(Assemble(v).fields, "245") != [] <==> Truthy(v.title) || Truthy(v.subtitle) || Truthy(v.statement)
    ensures FGet(Assemble(v), "245", 'a') == NonEmpty(v.title)
    ensures FGet(Assemble(v), "245", 'b') == NonEmpty(v.subtitle)
    ensures FGet(Assemble(v), "245", 'c') == NonEmpty(v.statement)
  {
    Fields245(v);
    TitleReadBack(Assemble(v), v);
  }

  /** A record whose 264s are the publication block has one exactly when place, publisher or date is non-empty, reading back as them. */
  lemma PublicationReadBack(r: Record, v: ThesisValues)
    requires FieldsWithTag(r.fields, "264") == PublicationFields(v)
    ensures |FieldsWithTag(r.fields, "264")| <= 1
    ensures FieldsWithTag(r.fields, "264") != [] <==> Truthy(v.place) || Truthy(v.publisher) || Truthy(v.date)
    ensures FGet(r, "264", 'a') == NonEmpty(v.place)
    ensures FGet(r, "264", 'b') == NonEmpty(v.publisher)
    ensures FGet(r, "264", 'c') == NonEmpty(v.date)
  {
    var ps := PublicationPieces(v);
    FGetReadsPieces(r, "264", ' ', '1', ps);
    assert ps[0] == ('a', NonEmpty(v.place)) && ps[1] == ('b', NonEmpty(v.publisher)) && ps[2] == ('c', NonEmpty(v.date));
    assert Present(ps) == [] <==> !Truthy(v.place) && !Truthy(v.publisher) && !Truthy(v.date);
  }

  /** The final record has a 264 exactly when place, publisher or date is non-empty, and it reads back as them. */
  lemma PublicationStatement(v: ThesisValues)
    ensures |FieldsWithTag(Assemble(v).fields, "264")| <= 1
    ensures FieldsWithTag(Assemble(v).fields, "264") != [] <==> Truthy(v.place) || Truthy(v.publisher) || Truthy(v.date)
    ensures FGet(Assemble(v), "264", 'a') == NonEmpty(v.place)
    ensures FGet(Assemble(v), "264", 'b') == NonEmpty(v.publisher)
    ensures FGet(Assemble(v), "264", 'c') == NonEmpty(v.date)
  {
    Fields264(v);
    PublicationReadBack(Assemble(v), v);
  }

  /** A record whose 300s are the description has one, with the extent when known and the fixed `$b` and `$c`. */
  lemma DescriptionReadBack(r: Record, v: ThesisValues)
    requires FieldsWithTag(r.fields, "300") == [F300(v)]
    ensures |FieldsWithTag(r.fields, "300")| == 1
    ensures FGet(r, "300", 'a') == NonEmpty(v.extent)
    ensures FGet(r, "300", 'b') == Some("illustrations")
    ensures FGet(r, "300", 'c') == Some("28 cm")
  {
    FGetReadsPieces(r, "300", ' ', ' ', DescriptionPieces(v));
    assert DescriptionPieces(v)[0].0 == 'a' && DescriptionPieces(v)[1].0 == 'b' && DescriptionPieces(v)[2].0 == 'c';
  }

  /** The final record always has one 300, with the extent when known and the fixed `$b` and `$c`. */
  lemma PhysicalDescription(v: ThesisValues)
    ensures |FieldsWithTag(Assemble(v).fields, "300")| == 1
    ensures FGet(Assemble(v), "300", 'a') == NonEmpty(v.extent)
    ensures FGet(Assemble(v), "300", 'b') == Some("illustrations")
    ensures FGet(Assemble(v), "300", 'c') == Some("28 cm")
  {
    Fields300(v);
    DescriptionReadBack(Assemble(v), v);
  }

  /** A record whose 502s are the thesis-note block has one exactly when one of the four pieces is present, reading back as them. */
  lemma ThesisNoteReadBack(r: Record, v: ThesisValues)
    requires FieldsWithTag(r.fields, "502") == ThesisNoteFields(v)
    ensures |FieldsWithTag(r.fields, "502")| <= 1
    ensures FieldsWithTag(r.fields, "502") != [] <==> Truthy(v.degree) || v.grantor.Some? || Truthy(v.discipline) || Truthy(v.number)
    ensures FGet(r, "502", 'b') == NonEmpty(v.degree)
    ensures FGet(r, "502", 'c') == v.grantor
    ensures FGet(r, "502", 'd') == NonEmpty(v.discipline)
    ensures FGet(r, "502", 'o') == if Truthy(v.number) then Some("n° " + v.number.value) else None
  {
    FGetReadsPieces(r, "502", ' ', ' ', ThesisNotePieces(v));
    assert ThesisNotePieces(v)[0].0 == 'b' && ThesisNotePieces(v)[1].0 == 'c' && ThesisNotePieces(v)[2].0 == 'd' && ThesisNotePieces(v)[3].0 == 'o';
  }

  /** The final record has a 502 exactly when one of its four pieces is present, and it reads back as them. */
  lemma ThesisNote(v: ThesisValues)
    ensures |FieldsWithTag(Assemble(v).fields, "502")| <= 1
    ensures FieldsWithTag(Assemble(v).fields, "502") != [] <==> Truthy(v.degree) || v.grantor.Some? || Truthy(v.discipline) || Truthy(v.number)
    ensures FGet(Assemble(v), "502", 'b') == NonEmpty(v.degree)
    ensures FGet(Assemble(v), "502", 'c') == v.grantor
    ensures FGet(Assemble(v), "502", 'd') == NonEmpty(v.discipline)
    ensures FGet(Assemble(v), "502", 'o') == if Truthy(v.number) then Some("n° " + v.number.value) else None
  {
    Fields502(v);
    ThesisNoteReadBack(Assemble(v), v);
  }

  /** A record whose 520s are the keywords note has one, with the note when a keyword is left and the agency in `$5`. */
  lemma KeywordsNoteReadBack(r: Record, v: ThesisValues)
    requires FieldsWithTag(r.fields, "520") == [F520(v)]
    ensures |FieldsWithTag(r.fields, "520")| == 1
    ensures FGet(r, "520", 'a') == if v.keywords != [] then Some(KeywordsNote(v.keywords)) else None
    ensures FGet(r, "520", '5') == Some(CatalogingAgency)
  {
    FGetReadsPieces(r, "520", ' ', ' ', AbstractPieces(v));
    assert AbstractPieces(v)[0].0 == 'a' && AbstractPieces(v)[1].0 == '5';
  }

  /** The final record always has one 520, with the keywords note when a keyword is left and the agency in `$5`. */
  lemma KeywordsNoteField(v: ThesisValues)
    ensures |FieldsWithTag(Assemble(v).fields, "520")| == 1
    ensures FGet(Assemble(v), "520", 'a') == if v.keywords != [] then Some(KeywordsNote(v.keywords)) else None
    ensures FGet(Assemble(v), "520", '5') == Some(CatalogingAgency)
  {
    Fields520(v);
    KeywordsNoteReadBack(Assemble(v), v);
  }

  /** A record whose 700s are the director entry has exactly one, with the chosen name and the relator "dgs". */
  lemma DirectorReadBack(r: Record, v: ThesisValues)
    requires FieldsWithTag(r.fields, "700") == [F700(v)]
    ensures |FieldsWithTag(r.fields, "700")| == 1
    ensures FGet(r, "700", 'a') == v.director
    ensures FGet(r, "700", '4') == Some("dgs")
  {
    FGetReadsPieces(r, "700", '1', ' ', DirectorPieces(v));
    assert DirectorPieces(v)[0].0 == 'a' && DirectorPieces(v)[1].0 == '4';
  }

  /** The final record always has exactly one 700, with the chosen director's name and the relator "dgs". */
  lemma DirectorEntry(v: ThesisValues)
    ensures |FieldsWithTag(Assemble(v).fields, "700")| == 1
    ensures FGet(Assemble(v), "700", 'a') == v.director
    ensures FGet(Assemble(v), "700", '4') == Some("dgs")
  {
    Fields700(v);
    DirectorReadBack(Assemble(v), v);
  }
  /** The fixed fields are always there, each once, and the three genre terms in order. */
  lemma StaticFields(v: ThesisValues)
    ensures FieldsWithTag(Assemble(v).fields, "008") == [F008]
    ensures FieldsWithTag(Assemble(v).fields, "040") == [F040]
    ensures FieldsWithTag(Assemble(v).fields, "336") == [F336]
    ensures FieldsWithTag(Assemble(v).fields, "337") == [F337]
    ensures FieldsWithTag(Assemble(v).fields, "338") == [F338]
    ensures FieldsWithTag(Assemble(v).fields, "655") == GenreFields && |GenreFields| == 3
  {
    Fields008(v);
    Fields040(v);
    Fields336(v);
    Fields337(v);
    Fields338(v);
    Fields655(v);
  }

  // ---------------------------------------------------------------------------
  // from the source record to the final record
  // ---------------------------------------------------------------------------

  /** The final record's 001 is the data of the source's first 001, when that is a control field holding something. */
  lemma IdentifierFromSource(src: Record, i: nat)
    requires i < |src.fields| && src.fields[i].tag == "001"
    requires forall j :: 0 <= j < i ==> src.fields[j].tag != "001"
    ensures FieldsWithTag(BuildFinalRecord(src).fields, "001")
         == if src.fields[i].ControlField? && src.fields[i].data != "" then [ControlField("001", src.fields[i].data)] else []
  {
    IdentifierValue(src);
    IdentifierCopied(ReadValues(src));
  }

  /** The identifier the mapper reads is `SourceId`. */
  lemma IdentifierValue(src: Record)
    ensures ReadValues(src).id == SourceId(src)
  {
  }

  /** The main entry is `$a` of the first 700 that has one, when that is non-empty. */
  lemma MainEntryFromSource(src: Record)
    ensures FGet(BuildFinalRecord(src), "100", 'a') == NonEmpty(MainAuthor(src))
  {
    MainEntry(ReadValues(src));
  }

  /** The statement of responsibility is that same author, inverted. */
  lemma StatementFromSource(src: Record)
    ensures FGet(BuildFinalRecord(src), "245", 'c') == NonEmpty(InvertNameComma(MainAuthor(src)))
  {
    TitleStatement(ReadValues(src));
  }

  /** The publisher is the source's 260 `$b`, "EPFL" written out. */
  lemma PublisherFromSource(src: Record)
    ensures FGet(BuildFinalRecord(src), "264", 'b') == NonEmpty(ExpandEpfl(FGet(src, "260", 'b')))
  {
    PublicationStatement(ReadValues(src));
  }

  /** The title and subtitle are the source's 245 `$a` and `$b`, each left out when empty. */
  lemma TitleFromSource(src: Record)
    ensures FGet(BuildFinalRecord(src), "245", 'a') == NonEmpty(FGet(src, "245", 'a'))
    ensures FGet(BuildFinalRecord(src), "245", 'b') == NonEmpty(FGet(src, "245", 'b'))
  {
    TitleStatement(ReadValues(src));
  }

  /** The place and date of publication are the source's 260 `$a` and `$c`, each left out when empty. */
  lemma PlaceDateFromSource(src: Record)
    ensures FGet(BuildFinalRecord(src), "264", 'a') == NonEmpty(FGet(src, "260", 'a'))
    ensures FGet(BuildFinalRecord(src), "264", 'c') == NonEmpty(FGet(src, "260", 'c'))
  {
    PublicationStatement(ReadValues(src));
  }

  /**
   * The thesis note: the degree type from 336 `$a`, the granting body from
   * 260 `$b` and `$a`, the discipline from 920 `$b` and the number from 088 `$a`.
   */
  lemma ThesisNoteFromSource(src: Record)
    ensures var kind := FGet(src, "336", 'a');
            FGet(BuildFinalRecord(src), "502", 'b') == if Truthy(kind) then Some(DegreeKind(kind.value)) else None
    ensures FGet(BuildFinalRecord(src), "502", 'c') == GrantingBody(FGet(src, "260", 'a'), FGet(src, "260", 'b'))
    ensures FGet(BuildFinalRecord(src), "502", 'd') == NonEmpty(FGet(src, "920", 'b'))
    ensures var number := FGet(src, "088", 'a');
            FGet(BuildFinalRecord(src), "502", 'o') == if Truthy(number) then Some("n° " + number.value) else None
  {
    ThesisNoteValues(src);
    ThesisNote(ReadValues(src));
  }

  /** The values the thesis note is made of, as read from the source. */
  lemma ThesisNoteValues(src: Record)
    ensures var kind := FGet(src, "336", 'a');
            NonEmpty(ReadValues(src).degree) == if Truthy(kind) then Some(DegreeKind(kind.value)) else None
    ensures ReadValues(src).grantor == GrantingBody(FGet(src, "260", 'a'), FGet(src, "260", 'b'))
    ensures ReadValues(src).discipline == FGet(src, "920", 'b') && ReadValues(src).number == FGet(src, "088", 'a')
  {
    var kind := FGet(src, "336", 'a');
    if Truthy(kind) {
      assert DegreeKind(kind.value) != "";
    }
  }

  /** The extent is the source's 300 `$a` with the pages suffix. */
  lemma ExtentFromSource(src: Record)
    ensures FGet(BuildFinalRecord(src), "300", 'a') == NonEmpty(EnsurePagesSuffix(FGet(src, "300", 'a')))
  {
    PhysicalDescription(ReadValues(src));
  }

  /** The keywords note lists the cleaned, de-duplicated 653 `$a` values, and is left out when none is left. */
  lemma KeywordsFromSource(src: Record)
    ensures FGet(BuildFinalRecord(src), "520", 'a') == if Keywords(src) != [] then Some(KeywordsNote(Keywords(src))) else None
    ensures FGet(BuildFinalRecord(src), "520", '5') == Some(CatalogingAgency)
  {
    KeywordsNoteField(ReadValues(src));
  }

  /** The director's 700 names the preferred 720, and has no `$a` when no 720 carries one. */
  lemma DirectorFromSource(src: Record)
    ensures |FieldsWithTag(BuildFinalRecord(src).fields, "700")| == 1
    ensures FGet(BuildFinalRecord(src), "700", 'a') == DirectorName(src)
    ensures FGet(BuildFinalRecord(src), "700", 'a').None? <==> forall i :: 0 <= i < |src.fields| ==> !IsContributorField(src.fields[i])
  {
    DirectorEntry(ReadValues(src));
  }

  /** Exact, case-sensitive de-duplication keeping first-seen order: "ai", "AI", "ai" gives "ai", "AI". */
  lemma DedupExample()
    ensures Dedup(["ai", "AI", "ai"]) == ["ai", "AI"]
  {
    assert ["ai", "AI", "ai"][..2] == ["ai", "AI"];
    assert ["ai", "AI"][..1] == ["ai"];
  }

  /** The keywords "ai" and "AI" give the note "Mots-clés de l'auteur : ai; AI". */
  lemma KeywordsNoteExample()
    ensures KeywordsNote(["ai", "AI"]) == KeywordsIntro + "ai; AI"
  {
    assert Join("; ", ["ai", "AI"]) == "ai; AI";
    ShorterLacks("I", "||");
    ReplaceAbsent("I", "||", "; ");
    assert !IsPrefix("||", "ai; AI") && !IsPrefix("||", "i; AI") && !IsPrefix("||", "; AI") && !IsPrefix("||", " AI") && !IsPrefix("||", "AI");
    assert "ai; AI"[1..] == "i; AI" && "i; AI"[1..] == "; AI" && "; AI"[1..] == " AI" && " AI"[1..] == "AI" && "AI"[1..] == "I";
  }

  /**
   * A source without 001: as written, `build_final_record` stops with
   * `KeyError`; the corrected mapper builds the record and leaves out 001.
   */
  lemma MissingIdentifierRejected(leader: string, fs: seq<Field>)
    requires forall i :: 0 <= i < |fs| ==> fs[i].tag != "001"
    ensures BuildFinalRecordAsWritten(Record(leader, fs)).Failed?
    ensures FieldsWithTag(BuildFinalRecord(Record(leader, fs)).fields, "001") == []
  {
    IdentifierCopied(ReadValues(Record(leader, fs)));
  }
}
