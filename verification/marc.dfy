/**
 * MARC records as the thesis mapper sees them: a leader and an ordered sequence
 * of fields, each either control data or two indicators and ordered subfields,
 * with the accessors the mapper uses (`get_fields`, `get`, `fget`, `fget_all`, `first`).
 */
module Marc {
  import opened Wrappers

  datatype Subfield = Subfield(code: char, value: string)

  datatype Field =
    | ControlField(tag: string, data: string)
    | DataField(tag: string, ind1: char, ind2: char, subfields: seq<Subfield>)
  {
    /** `code in f`: some subfield carries `code`; a control field has no subfields. */
    predicate Has(code: char) {
      DataField? && exists i :: 0 <= i < |subfields| && subfields[i].code == code
    }

    /** `f.get_subfields(code)`: every value under `code`, in field order. */
    function GetAll(code: char): (vs: seq<string>)
      ensures |vs| > 0 <==> Has(code)
    {
      if ControlField? then [] else ValuesOf(subfields, code)
    }

    /** `f.get(code)` (and `f[code]` once `code in f` holds): the first value under `code`. */
    function Get(code: char): (v: Option<string>)
      ensures v.Some? <==> Has(code)
    {
      var vs := GetAll(code);
      if |vs| > 0 then Some(vs[0]) else None
    }

    /** `f.data`: the payload of a control field; a data field has none. */
    function Data(): Option<string> {
      if ControlField? then Some(data) else None
    }
  }

  datatype Record = Record(leader: string, fields: seq<Field>)

  /** The values under `code` among `sfs`, in order. */
  function ValuesOf(sfs: seq<Subfield>, code: char): (vs: seq<string>)
    ensures |vs| <= |sfs|
    ensures |vs| > 0 <==> exists i :: 0 <= i < |sfs| && sfs[i].code == code
  {
    if |sfs| == 0 then []
    else (if sfs[0].code == code then [sfs[0].value] else []) + ValuesOf(sfs[1..], code)
  }

  /** `f.get(code)` returns the value of the first subfield carrying `code`. */
  lemma {:induction false} GetIsFirstSubfield(sfs: seq<Subfield>, i: nat, code: char)
    requires i < |sfs| && sfs[i].code == code
    requires forall j :: 0 <= j < i ==> sfs[j].code != code
    ensures ValuesOf(sfs, code)[0] == sfs[i].value
  {
    if i > 0 {
      GetIsFirstSubfield(sfs[1..], i - 1, code);
    }
  }

  /** `record.get_fields(tag)`: the fields carrying `tag`, in record order. */
  function FieldsWithTag(fs: seq<Field>, tag: string): (r: seq<Field>)
    ensures |r| <= |fs|
  {
    if |fs| == 0 then []
    else (if fs[0].tag == tag then [fs[0]] else []) + FieldsWithTag(fs[1..], tag)
  }

  /** `get_fields` keeps exactly the fields carrying the tag. */
  lemma {:induction false} FieldsWithTagMembers(fs: seq<Field>, tag: string)
    ensures forall i :: 0 <= i < |FieldsWithTag(fs, tag)| ==> FieldsWithTag(fs, tag)[i].tag == tag && FieldsWithTag(fs, tag)[i] in fs
    ensures forall f :: f in fs && f.tag == tag ==> f in FieldsWithTag(fs, tag)
    decreases |fs|
  {
    if |fs| > 0 {
      FieldsWithTagMembers(fs[1..], tag);
      assert forall f :: f in fs ==> f == fs[0] || f in fs[1..];
    }
  }

  /** `record.get(tag)`: the first field carrying `tag`, if any. */
  function FirstWithTag(fs: seq<Field>, tag: string): Option<Field> {
    var ts := FieldsWithTag(fs, tag);
    if |ts| > 0 then Some(ts[0]) else None
  }

  /** `record.get(tag)` finds a field exactly when one carries the tag, and then the first such field. */
  lemma {:induction false} FirstWithTagIsFirst(fs: seq<Field>, tag: string)
    ensures FirstWithTag(fs, tag).None? <==> forall i :: 0 <= i < |fs| ==> fs[i].tag != tag
    ensures FirstWithTag(fs, tag).Some? ==>
              exists i :: 0 <= i < |fs| && fs[i] == FirstWithTag(fs, tag).value && fs[i].tag == tag
                          && forall j :: 0 <= j < i ==> fs[j].tag != tag
    decreases |fs|
  {
    if |fs| > 0 && fs[0].tag != tag {
      FirstWithTagIsFirst(fs[1..], tag);
      if FirstWithTag(fs[1..], tag).Some? {
        var i :| 0 <= i < |fs[1..]| && fs[1..][i] == FirstWithTag(fs[1..], tag).value && fs[1..][i].tag == tag
                 && forall j :: 0 <= j < i ==> fs[1..][j].tag != tag;
        assert fs[i + 1] == fs[1..][i];
        assert forall j :: 0 <= j < i + 1 ==> fs[j].tag != tag by {
          forall j | 0 <= j < i + 1 ensures fs[j].tag != tag {
            if j > 0 {
              assert fs[j] == fs[1..][j - 1];
            }
          }
        }
      } else {
        assert forall j :: 0 <= j < |fs| ==> fs[j].tag != tag by {
          forall j | 0 <= j < |fs| ensures fs[j].tag != tag {
            if j > 0 {
              assert fs[j] == fs[1..][j - 1];
            }
          }
        }
      }
    }
  }

  /** `fget(r, tag, code)`: the first `code` value of the FIRST field carrying `tag`, never of a later one. */
  function FGet(r: Record, tag: string, code: char): Option<string> {
    match FirstWithTag(r.fields, tag)
    case None => None
    case Some(f) => f.Get(code)
  }

  /** `fget_all(r, tag, code)`: every `code` value of every field carrying `tag`, in record order. */
  function FGetAll(fs: seq<Field>, tag: string, code: char): seq<string>
  {
    if |fs| == 0 then []
    else (if fs[0].tag == tag then fs[0].GetAll(code) else []) + FGetAll(fs[1..], tag, code)
  }

  /** `first(it)`: the first element, or `None` for an empty sequence. */
  function First<T>(xs: seq<T>): (r: Option<T>)
    ensures r.Some? <==> |xs| > 0
    ensures r.Some? ==> r.value == xs[0]
  {
    if |xs| > 0 then Some(xs[0]) else None
  }

  lemma {:induction false} FieldsWithTagAppend(a: seq<Field>, b: seq<Field>, tag: string)
    ensures FieldsWithTag(a + b, tag) == FieldsWithTag(a, tag) + FieldsWithTag(b, tag)
    decreases |a|
  {
    if |a| > 0 {
      assert (a + b)[0] == a[0] && (a + b)[1..] == a[1..] + b;
      FieldsWithTagAppend(a[1..], b, tag);
      var h := if a[0].tag == tag then [a[0]] else [];
      assert h + (FieldsWithTag(a[1..], tag) + FieldsWithTag(b, tag))
          == (h + FieldsWithTag(a[1..], tag)) + FieldsWithTag(b, tag);
    } else {
      assert a + b == b;
    }
  }

  lemma {:induction false} FieldsWithTagNone(fs: seq<Field>, tag: string)
    requires forall g :: g in fs ==> g.tag != tag
    ensures FieldsWithTag(fs, tag) == []
    decreases |fs|
  {
    if |fs| > 0 {
      FieldsWithTagNone(fs[1..], tag);
    }
  }

  lemma {:induction false} FieldsWithTagAll(fs: seq<Field>, tag: string)
    requires forall g :: g in fs ==> g.tag == tag
    ensures FieldsWithTag(fs, tag) == fs
    decreases |fs|
  {
    if |fs| > 0 {
      FieldsWithTagAll(fs[1..], tag);
    }
  }

  /** Picks `fs` when the block's tag `t` is the one asked for. */
  function When(t: string, tag: string, fs: seq<Field>): (r: seq<Field>)
    ensures t == tag ==> r == fs
    ensures t != tag ==> r == []
  {
    if t == tag then fs else []
  }

  /** The fields with `tag` in a block whose fields all carry `t`: the whole block or nothing. */
  lemma BlockWithTag(fs: seq<Field>, t: string, tag: string)
    requires forall g :: g in fs ==> g.tag == t
    ensures FieldsWithTag(fs, tag) == When(t, tag, fs)
  {
    if t == tag {
      FieldsWithTagAll(fs, tag);
    } else {
      FieldsWithTagNone(fs, tag);
    }
  }

  /** `fget` on a record with at most one field carrying `tag` reads that field, if any. */
  lemma FGetOfAtMostOne(r: Record, tag: string, fs: seq<Field>, code: char)
    requires FieldsWithTag(r.fields, tag) == fs && |fs| <= 1
    ensures FGet(r, tag, code) == if fs == [] then None else fs[0].Get(code)
  {
  }

  /**
   * `fget` consults only the first field carrying the tag: whatever follows it
   * (another field with the same tag that does have the code, say) is ignored.
   */
  lemma FGetLooksOnlyAtFirstField(leader: string, pre: seq<Field>, f: Field, rest: seq<Field>, tag: string, code: char)
    requires forall g :: g in pre ==> g.tag != tag
    requires f.tag == tag
    ensures FGet(Record(leader, pre + [f] + rest), tag, code) == f.Get(code)
  {
    FieldsWithTagAppend(pre, [f] + rest, tag);
    FieldsWithTagNone(pre, tag);
    assert pre + [f] + rest == pre + ([f] + rest);
  }

  /** `fget_all` distributes over concatenation of field lists. */
  lemma {:induction false} FGetAllAppend(a: seq<Field>, b: seq<Field>, tag: string, code: char)
    ensures FGetAll(a + b, tag, code) == FGetAll(a, tag, code) + FGetAll(b, tag, code)
    decreases |a|
  {
    if |a| > 0 {
      assert (a + b)[0] == a[0] && (a + b)[1..] == a[1..] + b;
      FGetAllAppend(a[1..], b, tag, code);
      var h := if a[0].tag == tag then a[0].GetAll(code) else [];
      assert h + (FGetAll(a[1..], tag, code) + FGetAll(b, tag, code))
          == (h + FGetAll(a[1..], tag, code)) + FGetAll(b, tag, code);
    } else {
      assert a + b == b;
    }
  }

  /** `get_subfields` distributes over concatenation of subfield lists. */
  lemma {:induction false} ValuesOfAppend(a: seq<Subfield>, b: seq<Subfield>, code: char)
    ensures ValuesOf(a + b, code) == ValuesOf(a, code) + ValuesOf(b, code)
    decreases |a|
  {
    if |a| > 0 {
      assert (a + b)[0] == a[0] && (a + b)[1..] == a[1..] + b;
      ValuesOfAppend(a[1..], b, code);
      var h := if a[0].code == code then [a[0].value] else [];
      assert h + (ValuesOf(a[1..], code) + ValuesOf(b, code)) == (h + ValuesOf(a[1..], code)) + ValuesOf(b, code);
    } else {
      assert a + b == b;
    }
  }

  /**
   * In a field list made of a block without `tag`, at most one field with
   * `tag`, and a remainder, the first field with `tag` is the middle one; with
   * no middle field and no `tag` in the remainder there is none.
   */
  lemma FirstWithTagOfBlocks(pre: seq<Field>, mid: seq<Field>, post: seq<Field>, tag: string)
    requires forall g :: g in pre ==> g.tag != tag
    requires |mid| <= 1 && forall g :: g in mid ==> g.tag == tag
    requires mid == [] ==> forall g :: g in post ==> g.tag != tag
    ensures FirstWithTag(pre + mid + post, tag) == First(mid)
  {
    assert pre + mid + post == pre + (mid + post);
    FieldsWithTagAppend(pre, mid + post, tag);
    FieldsWithTagNone(pre, tag);
    if mid == [] {
      assert mid + post == post;
      FieldsWithTagNone(post, tag);
    } else {
      FieldsWithTagAppend(mid, post, tag);
    }
  }
}
