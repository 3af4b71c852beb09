/** Properties of bridge events that relate several operations. */
module BridgeEventProperties {
  import opened Wrappers
  import opened EventAdmin
  import opened BridgeEvents

  /** Every event either factory builds is classified as a bridge event. */
  lemma FactoriesAreClassified(bridgeJid: string)
    ensures IsBridgeEvent(AsEvent(CreateBridgeUp(bridgeJid)))
    ensures IsBridgeEvent(AsEvent(CreateBridgeDown(bridgeJid)))
  {
  }

  /** The factories reach every bridge event, and the JID they are given is the one read back. */
  lemma EveryBridgeEventIsFactoryMade(b: BridgeEvent)
    ensures b == CreateBridgeUp(b.jid) || b == CreateBridgeDown(b.jid)
    ensures GetBridgeJid(b) == Some(b.jid)
  {
  }

  /** The generic event determines the bridge event it was built from. */
  lemma AsEventInjective(a: BridgeEvent, b: BridgeEvent)
    requires AsEvent(a) == AsEvent(b)
    ensures a == b
  {
  }

  /** The two topics differ, so an up event never equals a down event, whatever the JIDs. */
  lemma UpNeverEqualsDown(upJid: string, downJid: string)
    ensures !Equals(CreateBridgeUp(upJid), Bridge(CreateBridgeDown(downJid)))
    ensures !Equals(CreateBridgeDown(downJid), Bridge(CreateBridgeUp(upJid)))
  {
  }

  /** Same kind, different JIDs: not equal. */
  lemma DifferentJidsNeverEqual(kind: Kind, j: string, k: string)
    requires j != k
    ensures !Equals(BridgeEvent(kind, j), Bridge(BridgeEvent(kind, k)))
  {
  }

  /** `equals` is reflexive on bridge events. */
  lemma EqualsReflexive(b: BridgeEvent)
    ensures Equals(b, Bridge(b))
  {
  }

  /** `equals` is symmetric on bridge events. */
  lemma EqualsSymmetric(a: BridgeEvent, b: BridgeEvent)
    ensures Equals(a, Bridge(b)) <==> Equals(b, Bridge(a))
  {
  }

  /** `equals` is transitive on bridge events. */
  lemma EqualsTransitive(a: BridgeEvent, b: BridgeEvent, c: BridgeEvent)
    requires Equals(a, Bridge(b)) && Equals(b, Bridge(c))
    ensures Equals(a, Bridge(c))
  {
  }

  /**
    `equals` goes by the Java type, `isBridgeEvent` by the topic alone: the
    plain generic event with the very same topic and properties is
    classified as a bridge event, yet no bridge event equals it.
  */
  lemma PlainTwinIsClassifiedButNotEqual(b: BridgeEvent)
    ensures IsBridgeEvent(AsEvent(b))
    ensures !Equals(b, Plain(AsEvent(b)))
  {
  }

  /**
    Classification does not look at the properties: some generic event is
    classified as a bridge event and still carries no JID.
  */
  lemma ClassifiedEventMayLackJid()
    ensures exists e: Event :: IsBridgeEvent(e) && e.GetProperty(JvbJidKey) == None
  {
    var e := Event(BridgeUp, map[]);
    assert IsBridgeEvent(e) && e.GetProperty(JvbJidKey) == None;
  }

  /** No partial match: a proper prefix of either topic, the empty string included, is rejected. */
  lemma {:induction false} PrefixesRejected(p: string, kind: Kind, props: map<string, string>)
    requires p < TopicOf(kind)
    ensures !IsBridgeEvent(Event(p, props))
  {
    // the up topic is no prefix of the down topic: they part at "U" / "D"
    assert BridgeUp[21] != BridgeDown[21];
  }

  /** ASCII lower-casing of one character. */
  function LowerAscii(c: char): char
  {
    if 'A' <= c <= 'Z' then (c as int - 'A' as int + 'a' as int) as char else c
  }

  /** ASCII lower-casing of a string, the reference for "a case variant". */
  function ToLowerAscii(s: string): string
  {
    if s == [] then [] else [LowerAscii(s[0])] + ToLowerAscii(s[1..])
  }

  lemma {:induction false} ToLowerAsciiLength(s: string)
    ensures |ToLowerAscii(s)| == |s|
  {
    if s != [] {
      ToLowerAsciiLength(s[1..]);
    }
  }

  /**
    No case-insensitive match: among the strings that differ from a topic
    only in letter case, exactly the topic itself is accepted.
  */
  lemma {:induction false} CaseVariantsRejected(s: string, kind: Kind, props: map<string, string>)
    ensures ToLowerAscii(s) == ToLowerAscii(TopicOf(kind)) ==>
              (IsBridgeEvent(Event(s, props)) <==> s == TopicOf(kind))
  {
    ToLowerAsciiLength(s);
    ToLowerAsciiLength(BridgeUp);
    ToLowerAsciiLength(BridgeDown);
  }
}
