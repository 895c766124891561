/**
 The callback payload carried by the reply button under each forwarded copy:
 built as `reply_{group_id}_{message_id}` and read back with `split('_')`
 into exactly three fields and two `int()` conversions.
 */
module CallbackCodec {
  import opened Wrappers
  import opened PyText

  /** What a button payload asks for. */
  datatype Click =
    | NotReply                                // the payload does not start with "reply_"
    | Malformed                               // not three fields, or a field that is not an integer
    | ReplyTo(groupId: int, messageId: int)   // reply into this group, under this message

  /** The payload of the reply button for one group message. */
  function CallbackData(groupId: int, messageId: int): string
  {
    "reply_" + IntToString(groupId) + "_" + IntToString(messageId)
  }

  /** The decision of the button handler on a payload, once the caller is known to be an administrator. */
  function ParseClick(data: string): Click
  {
    if !StartsWith(data, "reply_") then NotReply
    else
      var f := Split(data, '_');
      if |f| != 3 then Malformed
      else
        match (ParseInt(f[1]), ParseInt(f[2]))
        case (Some(g), Some(m)) => ReplyTo(g, m)
        case _ => Malformed
  }

  /** A payload `reply_G_M` whose G and M hold no underscore splits into the fields "reply", G and M. */
  lemma {:induction false} PayloadFields(gs: string, ms: string)
    requires '_' !in gs && '_' !in ms
    ensures StartsWith("reply_" + gs + "_" + ms, "reply_")
    ensures Split("reply_" + gs + "_" + ms, '_') == ["reply", gs, ms]
  {
    var data := "reply_" + gs + "_" + ms;
    assert data == "reply" + ['_'] + (gs + ['_'] + ms);
    SplitFirstField("reply", '_', gs + ['_'] + ms);
    SplitFirstField(gs, '_', ms);
    SplitWithoutSeparator(ms, '_');
    assert data[..6] == "reply_";
  }

  /** Every payload `reply_G_M` whose G and M are integer literals without underscores is accepted. */
  lemma {:induction false} ClickAccepts(gs: string, ms: string, g: int, m: int)
    requires '_' !in gs && '_' !in ms
    requires ParseInt(gs) == Some(g) && ParseInt(ms) == Some(m)
    ensures ParseClick("reply_" + gs + "_" + ms) == ReplyTo(g, m)
  {
    PayloadFields(gs, ms);
  }

  /** Round trip: the payload built for any group and message id, negative ids included, parses back to them. */
  lemma {:induction false} ClickRoundTrip(groupId: int, messageId: int)
    ensures ParseClick(CallbackData(groupId, messageId)) == ReplyTo(groupId, messageId)
  {
    IntToStringChars(groupId);
    IntToStringChars(messageId);
    IntRoundTrip(groupId);
    IntRoundTrip(messageId);
    ClickAccepts(IntToString(groupId), IntToString(messageId), groupId, messageId);
  }

  lemma JoinThree(f: seq<string>)
    requires |f| == 3
    ensures Join(f, '_') == f[0] + "_" + f[1] + "_" + f[2]
  {
    assert Join(f[1..], '_') == f[1] + "_" + f[2] by {
      assert f[1..][1..] == [f[2]];
    }
  }

  /** A payload that starts with "reply_" has "reply" as its first underscore-free field. */
  lemma FirstFieldIsTag(data: string, a: string, rest: string)
    requires StartsWith(data, "reply_")
    requires data == a + "_" + rest && '_' !in a
    ensures a == "reply"
  {
    assert data[..6] == "reply_";
    assert forall j :: 0 <= j < 5 ==> data[j] != '_';
    assert data[|a|] == '_';
    assert data[5] == '_';
    assert forall j :: 0 <= j < |a| ==> data[j] == a[j];
    assert a == data[..5];
  }

  /** A payload that starts with "reply_" and splits into three fields is "reply_" + G + "_" + M. */
  lemma ThreeFieldShape(data: string)
    requires StartsWith(data, "reply_") && |Split(data, '_')| == 3
    ensures var f := Split(data, '_'); data == "reply_" + f[1] + "_" + f[2]
  {
    var f := Split(data, '_');
    JoinThree(f);
    assert data == f[0] + "_" + (f[1] + "_" + f[2]);
    FirstFieldIsTag(data, f[0], f[1] + "_" + f[2]);
    assert "reply" + "_" == "reply_";
    assert data == ("reply" + "_") + f[1] + "_" + f[2];
  }

  /**
   Conversely, an accepted payload is `reply_G_M` for its second and third
   fields G and M, which hold no underscore and convert to the two ids.
   */
  lemma {:induction false} ClickFields(data: string, g: int, m: int)
    requires ParseClick(data) == ReplyTo(g, m)
    ensures var f := Split(data, '_');
            && |f| == 3
            && data == "reply_" + f[1] + "_" + f[2]
            && '_' !in f[1] && '_' !in f[2]
            && ParseInt(f[1]) == Some(g) && ParseInt(f[2]) == Some(m)
  {
    assert StartsWith(data, "reply_") && |Split(data, '_')| == 3;
    ThreeFieldShape(data);
  }
}
