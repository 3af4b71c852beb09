/**
  Typed events about video bridges (JVBs) going up or down, built on top of the
  generic `(topic, properties)` event of the event-admin bus.

  A bridge event carries one of two topics and is built from a one-entry
  property dictionary holding the bridge's JID. Java's `BridgeEvent` subclass is modelled by composition: the
  typed value `BridgeEvent(kind, jid)` and `AsEvent`, which gives the generic
  event the private Java constructor would build for it.
*/
module BridgeEvents {
  import opened Wrappers
  import opened EventAdmin

  /** Topic of the event raised when a new functional bridge is discovered. */
  const BridgeUp: string := "org/jitsi/jicofo/JVB/UP"

  /** Topic of the event raised when a bridge stops working or disconnects. */
  const BridgeDown: string := "org/jitsi/jicofo/JVB/DOWN"

  /** The property key under which the bridge JID is stored. */
  const JvbJidKey: string := "bridge.jid"

  /** Which of the two transitions an event reports. */
  datatype Kind = Up | Down

  /**
    A bridge event. The Java constructor is private and only the two
    factories call it, one per topic constant, so a kind and a JID are all
    that tell two bridge events apart.
  */
  datatype BridgeEvent = BridgeEvent(kind: Kind, jid: string)

  /** The value `equals` may be handed: a bridge event, a plain generic event, or anything else. */
  datatype Obj = Bridge(bridge: BridgeEvent) | Plain(event: Event) | Foreign

  /** The topic constant of each kind. */
  function TopicOf(kind: Kind): string
  {
    match kind
    case Up => BridgeUp
    case Down => BridgeDown
  }

  /** The property dictionary handed to the generic event: the JID under its key, and nothing else. */
  function InitDictionary(bridgeJid: string): (props: map<string, string>)
    ensures |props| == 1
    ensures JvbJidKey in props && props[JvbJidKey] == bridgeJid
  {
    map[JvbJidKey := bridgeJid]
  }

  /** The generic event a bridge event is: its topic and its one-entry dictionary (the private constructor). */
  function AsEvent(b: BridgeEvent): (e: Event)
    ensures IsBridgeEvent(e)
    ensures |e.props| == 1 && e.GetProperty(JvbJidKey) == Some(b.jid)
  {
    Event(TopicOf(b.kind), InitDictionary(b.jid))
  }

  /** The bridge-up event for `bridgeJid`. */
  function CreateBridgeUp(bridgeJid: string): (b: BridgeEvent)
    ensures GetTopic(b) == BridgeUp
    ensures GetBridgeJid(b) == Some(bridgeJid)
  {
    BridgeEvent(Up, bridgeJid)
  }

  /** The bridge-down event for `bridgeJid`. */
  function CreateBridgeDown(bridgeJid: string): (b: BridgeEvent)
    ensures GetTopic(b) == BridgeDown
    ensures GetBridgeJid(b) == Some(bridgeJid)
  {
    BridgeEvent(Down, bridgeJid)
  }

  /**
    Whether a generic event is one of the bridge events: its topic is exactly
    one of the two constants. Only the topic is looked at.
  */
  function IsBridgeEvent(event: Event): (r: bool)
    ensures r <==> exists kind :: event.GetTopic() == TopicOf(kind)
  {
    match event.GetTopic()
    case BridgeDown | BridgeUp =>
      assert event.GetTopic() == TopicOf(Down) || event.GetTopic() == TopicOf(Up);
      true
    case _ => false
  }

  /** The topic of a bridge event, read from its generic event; it tells the kind. */
  function GetTopic(b: BridgeEvent): (topic: string)
    ensures topic == BridgeUp <==> b.kind == Up
    ensures topic == BridgeDown <==> b.kind == Down
  {
    AsEvent(b).GetTopic()
  }

  /** The bridge JID, read back out of the generic event's properties. */
  function GetBridgeJid(b: BridgeEvent): (jid: Option<string>)
    ensures jid == Some(b.jid)
  {
    AsEvent(b).GetProperty(JvbJidKey)
  }

  /**
    `b.equals(obj)`: false for anything that is not a bridge event (a plain
    generic event included, whatever its topic and properties), otherwise
    topics and JIDs are compared. This is exactly equality of bridge events.
  */
  function Equals(b: BridgeEvent, obj: Obj): (r: bool)
    ensures r <==> obj.Bridge? && obj.bridge == b
  {
    match obj
    case Bridge(other) => GetTopic(b) == GetTopic(other) && GetBridgeJid(b) == GetBridgeJid(other)
    case _ => false
  }
}
