/**
  The generic event of the event-admin bus, as far as a bridge event uses it:
  an immutable topic string and a property dictionary. The bus itself (topic
  registration, delivery to subscribers) is not part of this model.
*/
module EventAdmin {
  import opened Wrappers

  /** A generic event. Property values are strings: the only values stored here are JIDs. */
  datatype Event = Event(topic: string, props: map<string, string>)
  {
    /** The topic under which the bus routes this event. */
    function GetTopic(): string
    {
      topic
    }

    /** The value stored under `key`, or `None` (Java's null) when there is none. */
    function GetProperty(key: string): Option<string>
    {
      if key in props then Some(props[key]) else None
    }
  }
}
