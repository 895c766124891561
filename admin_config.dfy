/**
 The administrator list read at start-up: the comma-separated value of the
 ADMIN_IDS setting, each non-blank field converted with `int()`.
 */
module AdminConfig {
  import opened Wrappers
  import opened PyText

  /** The fields that are non-blank after stripping, stripped, in their original order. */
  function NonBlankFields(fields: seq<string>): (r: seq<string>)
    ensures |r| <= |fields|
    ensures forall i :: 0 <= i < |r| ==> r[i] != [] && Strip(r[i]) == r[i]
  {
    if fields == [] then []
    else
      var t := Strip(fields[0]);
      (if t == [] then [] else [t]) + NonBlankFields(fields[1..])
  }

  /**
   Every field converted, left to right; `None` as soon as one conversion
   fails, which is where Python's comprehension stops with the exception.
   */
  function ConvertAll(fields: seq<string>, convert: string -> Option<int>): Option<seq<int>>
  {
    if fields == [] then Some([])
    else
      match convert(fields[0])
      case None => None
      case Some(v) =>
        match ConvertAll(fields[1..], convert)
        case None => None
        case Some(vs) => Some([v] + vs)
  }

  /**
   The value of ADMIN_IDS parsed as `[int(f.strip()) for f in env.split(',') if f.strip()]`;
   an unset variable reads as the empty string, and `None` is the `ValueError`
   that aborts start-up.
   */
  function ParseAdminIds(env: string): Option<seq<int>>
  {
    ConvertAll(AdminFields(env), ParseInt)
  }

  /** The non-blank comma-separated fields of ADMIN_IDS, stripped. */
  function AdminFields(env: string): seq<string>
  {
    NonBlankFields(Split(env, ','))
  }

  lemma {:induction false} ConvertAllMeaning(fields: seq<string>, convert: string -> Option<int>)
    ensures ConvertAll(fields, convert).Some? <==> forall i :: 0 <= i < |fields| ==> convert(fields[i]).Some?
    ensures ConvertAll(fields, convert).Some? ==>
              && |ConvertAll(fields, convert).value| == |fields|
              && forall i :: 0 <= i < |fields| ==> convert(fields[i]) == Some(ConvertAll(fields, convert).value[i])
  {
    if fields != [] {
      ConvertAllMeaning(fields[1..], convert);
      assert forall i :: 1 <= i < |fields| ==> fields[i] == fields[1..][i - 1];
    }
  }

  /**
   Parsing ADMIN_IDS succeeds exactly when every non-blank field is an
   integer, and then yields those integers in order; blank fields are skipped.
   */
  lemma ParseAdminIdsMeaning(env: string)
    ensures ParseAdminIds(env).Some? <==>
              forall i :: 0 <= i < |AdminFields(env)| ==> ParseInt(AdminFields(env)[i]).Some?
    ensures ParseAdminIds(env).Some? ==>
              && |ParseAdminIds(env).value| == |AdminFields(env)|
              && forall i :: 0 <= i < |AdminFields(env)| ==>
                   ParseInt(AdminFields(env)[i]) == Some(ParseAdminIds(env).value[i])
  {
    ConvertAllMeaning(AdminFields(env), ParseInt);
  }

  /** A field is skipped exactly when it is blank: nothing but whitespace. */
  lemma {:induction false} NonBlankFieldsMeaning(fields: seq<string>)
    ensures NonBlankFields(fields) == [] <==> forall i :: 0 <= i < |fields| ==> AllSpace(fields[i])
  {
    if fields != [] {
      NonBlankFieldsMeaning(fields[1..]);
      StripBlank(fields[0]);
      assert forall i :: 1 <= i < |fields| ==> fields[i] == fields[1..][i - 1];
    }
  }

  /** One field is kept, stripped, exactly when it is not blank. */
  lemma NonBlankFieldsOne(f: string)
    ensures NonBlankFields([f]) == if AllSpace(f) then [] else [Strip(f)]
  {
    StripBlank(f);
    assert [f][1..] == [];
  }

  /**
   Fields are filtered one by one: the kept fields of a concatenation are
   those of each part, in order, so a blank field never hides the ones after it.
   */
  lemma {:induction false} NonBlankFieldsAppend(a: seq<string>, b: seq<string>)
    ensures NonBlankFields(a + b) == NonBlankFields(a) + NonBlankFields(b)
  {
    if a != [] {
      assert (a + b)[0] == a[0] && (a + b)[1..] == a[1..] + b;
      NonBlankFieldsAppend(a[1..], b);
    } else {
      assert a + b == b;
    }
  }

  /** The ids rendered as decimal fields, for writing a list back as ADMIN_IDS. */
  function Render(ids: seq<int>): (fields: seq<string>)
    ensures |fields| == |ids|
    ensures forall i :: 0 <= i < |ids| ==> fields[i] == IntToString(ids[i])
  {
    seq(|ids|, i requires 0 <= i < |ids| => IntToString(ids[i]))
  }

  lemma {:induction false} RenderedFieldsNotBlank(ids: seq<int>)
    ensures NonBlankFields(Render(ids)) == Render(ids)
  {
    if ids != [] {
      IntToStringNotBlank(ids[0]);
      assert Render(ids)[1..] == Render(ids[1..]);
      RenderedFieldsNotBlank(ids[1..]);
    }
  }

  /** Round trip: a comma-joined list of decimal ids reads back as the same list. */
  lemma AdminIdsRoundTrip(ids: seq<int>)
    ensures ParseAdminIds(Join(Render(ids), ',')) == Some(ids)
  {
    var fields := Render(ids);
    if ids == [] {
      assert Split([], ',') == [[]];
      assert NonBlankFields([[]]) == [];
    } else {
      forall i | 0 <= i < |fields| ensures ',' !in fields[i] && ParseInt(fields[i]) == Some(ids[i]) {
        IntToStringChars(ids[i]);
        IntRoundTrip(ids[i]);
      }
      SplitJoin(fields, ',');
      RenderedFieldsNotBlank(ids);
      ConvertAllMeaning(fields, ParseInt);
      var r := ConvertAll(fields, ParseInt);
      assert r.Some? && r.value == ids;
    }
  }
}
