# Bridge events of the Jitsi Conference Focus

Jicofo reports video bridges (JVBs) that come up or go down as events on its
generic event-admin bus. A generic event is a topic string plus a property
dictionary. `BridgeEvent` is the typed form of such an event. It carries one of
two topic constants, `org/jitsi/jicofo/JVB/UP` or `org/jitsi/jicofo/JVB/DOWN`,
and is built from a one-entry property dictionary: the bridge JID under the key
`bridge.jid`.

This project models that class as Dafny values:

- `wrappers.dfy` (`Wrappers`): `Option`, standing for a Java reference that may be null.
- `event_admin.dfy` (`EventAdmin`): the generic `Event(topic, props)`, with
  `GetTopic` and `GetProperty`. `GetProperty` returns `None` for a missing key.
- `bridge_event.dfy` (`BridgeEvents`): the constants, `Kind = Up | Down`,
  `BridgeEvent(kind, jid)`, and the operations.
  - `InitDictionary` builds the property dictionary.
  - `AsEvent` is the generic event that the private constructor builds.
  - `CreateBridgeUp` and `CreateBridgeDown` are the two factories.
  - `IsBridgeEvent` is the topic switch.
  - `GetTopic` and `GetBridgeJid` are the accessors.
  - `Equals` is `equals`. Its argument is `Obj = Bridge | Plain | Foreign`: a
    bridge event, a plain generic event that is not a `BridgeEvent` instance,
    or any other object.
- `bridge_event_properties.dfy` (`BridgeEventProperties`): lemmas that relate the operations.

The Java constructor is private and only the two factories call it, each with
one of the two constants. So the model keeps a `Kind` rather than an arbitrary
topic string, and every `BridgeEvent` value is one that a factory can build
(`EveryBridgeEventIsFactoryMade`).

`getBridgeJid` returns a nullable `String`, so `GetBridgeJid` returns
`Option<string>`. It is proved to be `Some(jid)` for every bridge event. An
absent JID can only arise for a generic event that was not built by a
factory. Such an event can still pass `IsBridgeEvent`
(`ClassifiedEventMayLackJid`), because classification looks only at the topic.

## Model

| member | source | states |
|---|---|---|
| `BridgeEvents.InitDictionary` | src/main/java/org/jitsi/jicofo/event/BridgeEvent.java:53-58 | the dictionary has exactly one entry: the given JID under `bridge.jid` |
| `BridgeEvents.CreateBridgeUp` | src/main/java/org/jitsi/jicofo/event/BridgeEvent.java:67-70 | the event's topic is `org/jitsi/jicofo/JVB/UP`, and its JID reads back as the given JID |
| `BridgeEvents.CreateBridgeDown` | src/main/java/org/jitsi/jicofo/event/BridgeEvent.java:79-82 | the event's topic is `org/jitsi/jicofo/JVB/DOWN`, and its JID reads back as the given JID |
| `BridgeEvents.IsBridgeEvent` | src/main/java/org/jitsi/jicofo/event/BridgeEvent.java:92-102 | true exactly when the generic event's topic is the topic of one of the two kinds |
| `BridgeEvents.AsEvent` | src/main/java/org/jitsi/jicofo/event/BridgeEvent.java:104-107 | the generic event the private constructor builds is classified as a bridge event, has a one-entry dictionary, and yields the event's JID under `bridge.jid` |
| `BridgeEvents.GetTopic` | src/main/java/org/jitsi/jicofo/event/BridgeEvent.java:131 | the topic read from the generic event is the up constant exactly for up events and the down constant exactly for down events |
| `BridgeEvents.GetBridgeJid` | src/main/java/org/jitsi/jicofo/event/BridgeEvent.java:115-118 | reading `bridge.jid` from the generic event's properties always finds the event's JID, never null |
| `BridgeEvents.Equals` | src/main/java/org/jitsi/jicofo/event/BridgeEvent.java:124-133 | true exactly when the argument is a bridge event equal in kind and JID; false, not a failure, for every other argument |
| `BridgeEventProperties.FactoriesAreClassified` | src/main/java/org/jitsi/jicofo/event/BridgeEvent.java:67-102 | every event either factory builds is classified as a bridge event |
| `BridgeEventProperties.EveryBridgeEventIsFactoryMade` | src/main/java/org/jitsi/jicofo/event/BridgeEvent.java:67-107 | every bridge event is what one of the two factories returns for its JID, and that JID reads back |
| `BridgeEventProperties.AsEventInjective` | src/main/java/org/jitsi/jicofo/event/BridgeEvent.java:104-107 | two bridge events with the same generic event (topic and properties) are the same event |
| `BridgeEventProperties.UpNeverEqualsDown` | src/main/java/org/jitsi/jicofo/event/BridgeEvent.java:37-43 | the topic constants differ, so an up event never equals a down event, in either order and for any JIDs |
| `BridgeEventProperties.DifferentJidsNeverEqual` | src/main/java/org/jitsi/jicofo/event/BridgeEvent.java:131-132 | two events of the same kind with different JIDs are not equal |
| `BridgeEventProperties.EqualsReflexive` | src/main/java/org/jitsi/jicofo/event/BridgeEvent.java:124-133 | every bridge event equals itself |
| `BridgeEventProperties.EqualsSymmetric` | src/main/java/org/jitsi/jicofo/event/BridgeEvent.java:124-133 | `a.equals(b)` exactly when `b.equals(a)` |
| `BridgeEventProperties.EqualsTransitive` | src/main/java/org/jitsi/jicofo/event/BridgeEvent.java:124-133 | equality of bridge events is transitive |
| `BridgeEventProperties.PlainTwinIsClassifiedButNotEqual` | src/main/java/org/jitsi/jicofo/event/BridgeEvent.java:126-129 | a plain generic event with the same topic and properties passes the topic check, yet `equals` rejects it because it is not a `BridgeEvent` |
| `BridgeEventProperties.ClassifiedEventMayLackJid` | src/main/java/org/jitsi/jicofo/event/BridgeEvent.java:92-102 | classification ignores the properties: some generic event is accepted and has no `bridge.jid` |
| `BridgeEventProperties.PrefixesRejected` | src/main/java/org/jitsi/jicofo/event/BridgeEvent.java:92-102 | no partial match: every proper prefix of either topic, the empty string included, is rejected |
| `BridgeEventProperties.CaseVariantsRejected` | src/main/java/org/jitsi/jicofo/event/BridgeEvent.java:92-102 | no case-insensitive match: of all strings equal to a topic up to ASCII letter case, only the topic itself is accepted |

## Left out

- The generic event class and the event bus: topic registration and delivery to subscribers. This is a foreign library. Its event is modelled only as a `(topic, properties)` value with `GetTopic` and `GetProperty`.
- Property values are modelled as strings. A non-string value under `bridge.jid` would make the Java cast in `getBridgeJid` throw a `ClassCastException`. That cannot happen for a bridge event, and it is not modelled.
- `BridgeSelector`, which decides when these events are raised, is not part of this model.
- Null arguments are not modelled, and neither are the exceptions they cause: `Hashtable.put` rejects a null JID (line 56), so no bridge event holds one. JIDs are plain strings.
- `hashCode` (not overridden in this class), Java object identity and runtime casts are not modelled. The only type test kept is "is or is not a `BridgeEvent`", which is the `Obj` argument of `Equals`.
- Concurrency is not modelled: the object is immutable.
- `equals` never meets a bridge event without a JID, because the private constructor always stores one (lines 104-107 and 53-58). An absent JID can only be seen on a generic event, through `GetProperty`.
