/**
 Inbound messages as the handlers see them, and the classification of a
 message by the first of its content fields that is present (truthy in
 Python's sense).
 */
module Messages {
  import opened Wrappers

  /** The content kinds the handlers tell apart. */
  datatype MessageType = Text | Photo | Document | Video | Unknown

  /**
   An inbound message. `text` is empty when the message has none, `photoSizes`
   counts the sizes of an attached photo (zero for none); file ids and the
   sender's display name are not modelled.
   */
  datatype Message = Message(
    chatId: int,
    messageId: int,
    sender: Option<int>,
    text: string,
    caption: Option<string>,
    photoSizes: nat,
    hasDocument: bool,
    hasVideo: bool,
    isReply: bool)

  /** `getattr(message, t, None)` is truthy. */
  predicate Has(m: Message, t: MessageType)
  {
    match t
    case Text => m.text != []
    case Photo => m.photoSizes > 0
    case Document => m.hasDocument
    case Video => m.hasVideo
    case Unknown => false
  }

  /** `next((t for t in order if getattr(message, t, None)), 'unknown')`. */
  function FirstPresent(m: Message, order: seq<MessageType>): (t: MessageType)
    ensures t == Unknown || t in order
    ensures t != Unknown ==> Has(m, t)
    ensures t == Unknown <==> forall i :: 0 <= i < |order| ==> !Has(m, order[i])
  {
    if order == [] then Unknown
    else if Has(m, order[0]) then order[0]
    else
      var t := FirstPresent(m, order[1..]);
      assert forall i :: 1 <= i < |order| ==> order[i] == order[1..][i - 1];
      t
  }

  /** The chosen kind is the first present one: no kind before it in the probe order is present. */
  lemma {:induction false} FirstPresentIsFirst(m: Message, order: seq<MessageType>)
    ensures FirstPresent(m, order) != Unknown ==>
              exists k :: 0 <= k < |order| && order[k] == FirstPresent(m, order) &&
                          forall j :: 0 <= j < k ==> !Has(m, order[j])
  {
    if order != [] && !Has(m, order[0]) && FirstPresent(m, order) != Unknown {
      FirstPresentIsFirst(m, order[1..]);
      var k :| 0 <= k < |order[1..]| && order[1..][k] == FirstPresent(m, order[1..]) &&
               forall j :: 0 <= j < k ==> !Has(m, order[1..][j]);
      assert forall j :: 1 <= j < k + 1 ==> order[j] == order[1..][j - 1];
      assert order[k + 1] == FirstPresent(m, order);
    } else if order != [] && Has(m, order[0]) {
      assert order[0] == FirstPresent(m, order);
    }
  }

  /** The order in which a group message's fields are probed. */
  const ForwardOrder: seq<MessageType> := [Text, Photo, Document, Video]

  /** The kind of a group message. */
  function Classify(m: Message): MessageType
  {
    FirstPresent(m, ForwardOrder)
  }

  /**
   The classification is the first present of text, photo, document and
   video, in that order, and `Unknown` exactly when none is present.
   */
  lemma ClassifyCases(m: Message)
    ensures Classify(m) == Text <==> m.text != []
    ensures Classify(m) == Photo <==> m.text == [] && m.photoSizes > 0
    ensures Classify(m) == Document <==> m.text == [] && m.photoSizes == 0 && m.hasDocument
    ensures Classify(m) == Video <==> m.text == [] && m.photoSizes == 0 && !m.hasDocument && m.hasVideo
    ensures Classify(m) == Unknown <==> m.text == [] && m.photoSizes == 0 && !m.hasDocument && !m.hasVideo
  {
    var o := ForwardOrder;
    assert o[1..] == [Photo, Document, Video];
    assert [Photo, Document, Video][1..] == [Document, Video];
    assert [Document, Video][1..] == [Video];
    assert [Video][1..] == [];
    assert FirstPresent(m, [Video]) == if m.hasVideo then Video else Unknown;
    assert FirstPresent(m, [Document, Video]) == if m.hasDocument then Document else FirstPresent(m, [Video]);
    assert FirstPresent(m, [Photo, Document, Video]) ==
             if m.photoSizes > 0 then Photo else FirstPresent(m, [Document, Video]);
    assert Classify(m) == if m.text != [] then Text else FirstPresent(m, [Photo, Document, Video]);
  }
}
