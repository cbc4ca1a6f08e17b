/** The access decision of `app_access_verify_uid`: a linear search of the
    scanned UID in a fixed whitelist of two 4-byte UIDs, ending in exactly
    one message to the display. The display call is kept only as the
    message it is given. */
module Access {
  /** The UID bytes that take part in the comparison. */
  const UidBytes: nat := 4

  /** The whitelist table, in search order. */
  const Whitelist: seq<seq<bv8>> := [[0xDE, 0xAD, 0xBE, 0xEF], [0x12, 0x34, 0x56, 0x78]]
  const WhitelistSize: nat := 2

  /** What `app_hmi_show_message(text, status)` is asked to display. */
  datatype Message = Message(text: string, status: int)

  const AccessGranted: Message := Message("Access Granted", 1)
  const AccessDenied: Message := Message("Access Denied", 0)

  /** `memcmp(uid, entry, 4) == 0`: the first four bytes agree. */
  predicate Matches(uid: seq<bv8>, entry: seq<bv8>)
    requires |uid| >= UidBytes && |entry| >= UidBytes
  {
    forall j :: 0 <= j < UidBytes ==> uid[j] == entry[j]
  }

  /** Some whitelist entry matches the UID. */
  predicate Listed(uid: seq<bv8>)
    requires |uid| >= UidBytes
  {
    exists i :: 0 <= i < |Whitelist| && Matches(uid, Whitelist[i])
  }

  /** The message the verification ends with. */
  function Decision(uid: seq<bv8>): (m: Message)
    requires |uid| >= UidBytes
    ensures m == AccessGranted || m == AccessDenied
    ensures m.status == 1 <==> Listed(uid)
  {
    if Listed(uid) then AccessGranted else AccessDenied
  }

  /** `app_access_verify_uid(uid)`: `shown` is what is sent to the display
      during the call. The search stops at the first matching entry, so
      exactly one message is shown: granted iff the UID is listed. */
  method VerifyUid(uid: seq<bv8>) returns (shown: seq<Message>)
    requires |uid| >= UidBytes
    ensures shown == [Decision(uid)]
    ensures |shown| == 1 && (shown[0] == AccessGranted <==> Listed(uid))
  {
    shown := [];
    var i := 0;
    while i < WhitelistSize
      invariant 0 <= i <= WhitelistSize
      invariant shown == []
      invariant forall k :: 0 <= k < i ==> !Matches(uid, Whitelist[k])
    {
      if Matches(uid, Whitelist[i]) {
        shown := shown + [AccessGranted];
        return;
      }
      i := i + 1;
    }
    shown := shown + [AccessDenied];
  }

  /** The whitelist holds exactly DE AD BE EF and 12 34 56 78: a UID is
      listed iff its first four bytes are one of them. */
  lemma ListedIff(uid: seq<bv8>)
    requires |uid| >= UidBytes
    ensures Listed(uid) <==> uid[..UidBytes] == [0xDE, 0xAD, 0xBE, 0xEF] || uid[..UidBytes] == [0x12, 0x34, 0x56, 0x78]
  {
    var u := uid[..UidBytes];
    assert u == [uid[0], uid[1], uid[2], uid[3]];
    if Matches(uid, Whitelist[0]) {
      assert u == Whitelist[0];
    } else if Matches(uid, Whitelist[1]) {
      assert u == Whitelist[1];
    } else {
      assert !Listed(uid);
    }
  }

  /** On a 4-byte UID the decision is a comparison with the two entries. */
  lemma DecisionOfUid(uid: seq<bv8>)
    requires |uid| == UidBytes
    ensures Decision(uid) == AccessGranted <==> uid == [0xDE, 0xAD, 0xBE, 0xEF] || uid == [0x12, 0x34, 0x56, 0x78]
  {
    ListedIff(uid);
    assert uid[..UidBytes] == uid;
  }

  /** Bytes after the fourth never change the decision. */
  lemma OnlyFirstFourBytesMatter(uid: seq<bv8>, uid': seq<bv8>)
    requires |uid| >= UidBytes && |uid'| >= UidBytes
    requires uid[..UidBytes] == uid'[..UidBytes]
    ensures Decision(uid) == Decision(uid')
  {
    assert forall j :: 0 <= j < UidBytes ==> uid[j] == uid[..UidBytes][j] && uid'[j] == uid'[..UidBytes][j];
    assert forall i :: 0 <= i < |Whitelist| ==> (Matches(uid, Whitelist[i]) <==> Matches(uid', Whitelist[i]));
  }
}
