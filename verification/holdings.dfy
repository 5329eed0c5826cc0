/**
 * Holdings and items in the catalogue: `find_existing_holding`,
 * `build_holding_marc`, `creer_holding` and the location table of
 * `creer_item_pour_une_holding`. What the catalogue answers (its holding
 * list, the bib's MMS id, the outcome of a create request) and what the XSD
 * says are inputs.
 */
module Holdings {
  import opened Wrappers
  import opened Marc
  import opened Validation

  /** A holding as the catalogue wrapper returns it. */
  datatype HoldingView = HoldingView(id: string, error: bool, library: Option<string>, location: Option<string>)

  /** A holding the search considers: no wrapper error, library and location both non-empty. */
  predicate Usable(h: HoldingView) {
    !h.error && Truthy(h.library) && Truthy(h.location)
  }

  /** A usable holding for exactly this library and location. */
  predicate Matches(h: HoldingView, library: string, location: string) {
    Usable(h) && h.library.value == library && h.location.value == location
  }

  /**
   * `find_existing_holding`: `fetched` is the holding list, or `None` when
   * fetching it raised. Holdings with an error or a missing library or
   * location are skipped; the first exact match is returned.
   */
  function FindExistingHolding(fetched: Option<seq<HoldingView>>, library: string, location: string): (r: Option<HoldingView>)
    ensures r.None? <==> fetched.None? || forall i :: 0 <= i < |fetched.value| ==> !Matches(fetched.value[i], library, location)
    ensures r.Some? ==> fetched.Some? && exists i :: 0 <= i < |fetched.value| && fetched.value[i] == r.value
                                                     && Matches(r.value, library, location)
                                                     && forall j :: 0 <= j < i ==> !Matches(fetched.value[j], library, location)
  {
    if fetched.None? then None else FirstMatch(fetched.value, library, location)
  }

  function FirstMatch(hs: seq<HoldingView>, library: string, location: string): (r: Option<HoldingView>)
    ensures r.None? <==> forall i :: 0 <= i < |hs| ==> !Matches(hs[i], library, location)
    ensures r.Some? ==> exists i :: 0 <= i < |hs| && hs[i] == r.value && Matches(r.value, library, location)
                                    && forall j :: 0 <= j < i ==> !Matches(hs[j], library, location)
    decreases |hs|
  {
    if |hs| == 0 then None
    else if Matches(hs[0], library, location) then Some(hs[0])
    else
      var r := FirstMatch(hs[1..], library, location);
      assert r.Some? ==> exists i :: 0 <= i < |hs| && hs[i] == r.value && Matches(r.value, library, location)
                                     && forall j :: 0 <= j < i ==> !Matches(hs[j], library, location) by {
        if r.Some? {
          var i :| 0 <= i < |hs[1..]| && hs[1..][i] == r.value && Matches(r.value, library, location)
                   && forall j :: 0 <= j < i ==> !Matches(hs[1..][j], library, location);
          assert hs[i + 1] == r.value;
          assert forall j :: 0 <= j < i + 1 ==> !Matches(hs[j], library, location) by {
            forall j | 0 <= j < i + 1 ensures !Matches(hs[j], library, location) {
              if j > 0 {
                assert hs[j] == hs[1..][j - 1];
              }
            }
          }
        }
      }
      r
  }

  /** A holding that cannot match is passed over, whatever comes before or after it. */
  lemma {:induction false} FirstMatchSkips(pre: seq<HoldingView>, h: HoldingView, post: seq<HoldingView>, library: string, location: string)
    requires !Matches(h, library, location)
    ensures FirstMatch(pre + [h] + post, library, location) == FirstMatch(pre + post, library, location)
    decreases |pre|
  {
    if |pre| == 0 {
      assert pre + [h] + post == [h] + post && ([h] + post)[1..] == post && pre + post == post;
    } else {
      assert (pre + [h] + post)[0] == pre[0] && (pre + [h] + post)[1..] == pre[1..] + [h] + post;
      assert (pre + post)[0] == pre[0] && (pre + post)[1..] == pre[1..] + post;
      FirstMatchSkips(pre[1..], h, post, library, location);
    }
  }

  /** A holding with an error or without library or location is skipped: dropping it changes nothing. */
  lemma UnusableSkipped(pre: seq<HoldingView>, h: HoldingView, post: seq<HoldingView>, library: string, location: string)
    requires !Usable(h)
    ensures FindExistingHolding(Some(pre + [h] + post), library, location) == FindExistingHolding(Some(pre + post), library, location)
  {
    FirstMatchSkips(pre, h, post, library, location);
  }

  const HoldingLeader: string := "00000nx a2200061zn 450"
  const HoldingFixed008: string := "1011252u 8 4001uueng0000000"

  /** `build_holding_marc`: a holding record whose 852 carries library, location and call number. */
  function BuildHoldingMarc(library: string, location: string, callNumber: string): (r: Record)
    ensures r.leader == HoldingLeader && |r.fields| == 2
  {
    Record(HoldingLeader, [
      ControlField("008", HoldingFixed008),
      DataField("852", '4', ' ', [Subfield('b', library), Subfield('c', location), Subfield('j', callNumber)])])
  }

  /** The 852 of a holding record reads back as the library, location and call number it was built from. */
  lemma HoldingMarcReadsBack(library: string, location: string, callNumber: string)
    ensures var r := BuildHoldingMarc(library, location, callNumber);
            FGet(r, "852", 'b') == Some(library) && FGet(r, "852", 'c') == Some(location) && FGet(r, "852", 'j') == Some(callNumber)
  {
    var r := BuildHoldingMarc(library, location, callNumber);
    var f := r.fields[1];
    assert r.fields[1..] == [f] && [f][1..] == [];
    assert FieldsWithTag(r.fields, "852") == [f];
    var sfs := f.subfields;
    assert sfs[1..] == [Subfield('c', location), Subfield('j', callNumber)];
    assert sfs[1..][1..] == [Subfield('j', callNumber)] && sfs[1..][1..][1..] == [];
    assert ValuesOf(sfs, 'b') == [library];
    assert ValuesOf(sfs, 'c') == [location];
    assert ValuesOf(sfs[1..][1..], 'j') == [callNumber];
    assert ValuesOf(sfs[1..], 'j') == [callNumber];
    assert ValuesOf(sfs, 'j') == [callNumber];
  }

  /** The catalogue's answer to a create request. */
  datatype CreateAnswer<T> = Created(value: T) | CreateError(message: string)

  /** The path `creer_holding` took. */
  datatype HoldingOutcome =
    | Existing(holding: HoldingView)
    | InvalidHolding(errors: seq<string>)
    | NoMmsId
    | HoldingRejected(message: string)
    /** The catalogue failed without a message: the code goes on with no holding and raises. */
    | HoldingCrashed
    | NewHolding(holding: HoldingView)
  {
    /** What `creer_holding` returns. */
    function Returned(): Option<HoldingView> {
      match this
      case Existing(h) => Some(h)
      case NewHolding(h) => Some(h)
      case _ => None
    }

    /** The holding was validated and sent to the catalogue. */
    predicate CreationRequested() {
      HoldingRejected? || HoldingCrashed? || NewHolding?
    }
  }

  /**
   * `creer_holding`: an existing holding for (library, location) is returned
   * as it is; otherwise the holding record is validated (`schema` is the
   * verdict on it, `None` without a schema), the bib's MMS id is looked up
   * and the holding is created. A create error with an empty message is not
   * seen as an error, and the call then fails on the missing holding.
   */
  function CreerHolding(fetched: Option<seq<HoldingView>>, library: string, location: string,
                        schema: Option<Verdict>, mmsId: Option<string>, answer: CreateAnswer<HoldingView>): (o: HoldingOutcome)
    ensures o.Existing? <==> FindExistingHolding(fetched, library, location).Some?
    ensures o.Existing? ==> o.holding == FindExistingHolding(fetched, library, location).value
    ensures o.CreationRequested() ==> ValidateElement(true, schema, "holding", true).valid && Truthy(mmsId)
    ensures o.NewHolding? <==> FindExistingHolding(fetched, library, location).None?
                               && ValidateElement(true, schema, "holding", true).valid && Truthy(mmsId) && answer.Created?
    ensures o.HoldingCrashed? <==> o.CreationRequested() && answer == CreateError("")
  {
    var existing := FindExistingHolding(fetched, library, location);
    if existing.Some? then Existing(existing.value)
    else
      var check := ValidateElement(true, schema, "holding", true);
      if !check.valid then InvalidHolding(check.errors)
      else if !Truthy(mmsId) then NoMmsId
      else match answer
        case CreateError(msg) => if msg == "" then HoldingCrashed else HoldingRejected(msg)
        case Created(h) => NewHolding(h)
  }

  /** An existing holding short-circuits: schema, MMS id and catalogue answer play no part. */
  lemma ExistingShortCircuits(fetched: Option<seq<HoldingView>>, library: string, location: string,
                              schema: Option<Verdict>, mmsId: Option<string>, answer: CreateAnswer<HoldingView>,
                              schema2: Option<Verdict>, mmsId2: Option<string>, answer2: CreateAnswer<HoldingView>)
    requires FindExistingHolding(fetched, library, location).Some?
    ensures CreerHolding(fetched, library, location, schema, mmsId, answer)
         == CreerHolding(fetched, library, location, schema2, mmsId2, answer2)
    ensures !CreerHolding(fetched, library, location, schema, mmsId, answer).CreationRequested()
  {
  }

  /** `base_status` and item policy by holding location: "E02SP" gives "04", "E02XA" gives "70", any other none. */
  function ItemPolicy(location: Option<string>): (r: Option<(string, string)>)
    ensures r.Some? <==> location == Some("E02SP") || location == Some("E02XA")
    ensures r.Some? ==> r.value.0 == r.value.1
    ensures location == Some("E02SP") ==> r == Some(("04", "04"))
    ensures location == Some("E02XA") ==> r == Some(("70", "70"))
  {
    if location == Some("E02SP") then Some(("04", "04"))
    else if location == Some("E02XA") then Some(("70", "70"))
    else None
  }

  /** The path `creer_item_pour_une_holding` took. */
  datatype ItemOutcome =
    | UnhandledLocation
    | InvalidItem(errors: seq<string>)
    | ItemRejected(message: string)
    | NewItem(itemId: Option<string>, baseStatus: string, policy: string)
  {
    /** What `creer_item_pour_une_holding` returns: the new item's id, if any. */
    function Returned(): Option<string> {
      if NewItem? then itemId else None
    }
  }

  /**
   * `creer_item_pour_une_holding`: only the two handled locations get an
   * item, with their status and policy; the item is validated (`schema` is
   * the verdict on it) and then created.
   */
  function CreerItem(holding: HoldingView, schema: Option<Verdict>, answer: CreateAnswer<Option<string>>): (o: ItemOutcome)
    ensures ItemPolicy(holding.location).None? <==> o.UnhandledLocation?
    ensures o.NewItem? ==> ItemPolicy(holding.location) == Some((o.baseStatus, o.policy)) && answer == Created(o.itemId)
    ensures o.NewItem? <==> ItemPolicy(holding.location).Some? && ValidateElement(true, schema, "item", true).valid && answer.Created?
  {
    match ItemPolicy(holding.location)
    case None => UnhandledLocation
    case Some(policy) =>
      var check := ValidateElement(true, schema, "item", true);
      if !check.valid then InvalidItem(check.errors)
      else match answer
        case CreateError(msg) => ItemRejected(msg)
        case Created(id) => NewItem(id, policy.0, policy.1)
  }
}
