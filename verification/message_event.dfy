/**
 * The event that carries one claimed message to listeners. Besides the
 * standard event data (name, parameters, propagation-stop flag) it holds the
 * message, which it also exposes as the parameter "message".
 */
module MessageEvent {
  import opened Wrappers
  import opened Tables

  /**
   * A received message with its queue reference. `queue` is the name of the
   * queue the message was received from, and becomes None once the message
   * has been deleted through that queue.
   */
  datatype QueueMessage = QueueMessage(row: MessageRow, queue: Option<string>)

  /** An event parameter value; `Null` is PHP's null. */
  datatype Param = Null | Message(message: QueueMessage) | Scalar(text: string)

  datatype Event = Event(name: string, params: map<string, Param>, stopped: bool, message: Option<QueueMessage>)

  /** The parameter name under which the message is exposed. */
  const MESSAGE_PARAM := "message"

  /** A fresh event: no name, no parameters, propagation not stopped, no message. */
  function NewEvent(): Event {
    Event("", map[], false, None)
  }

  function GetMessage(e: Event): Option<QueueMessage> {
    e.message
  }

  /** Stores `m` as the event's message and returns the event. */
  function SetMessage(e: Event, m: QueueMessage): (r: Event)
    ensures GetMessage(r) == Some(m)
    ensures r.name == e.name && r.params == e.params && r.stopped == e.stopped
  {
    e.(message := Some(m))
  }

  /** A possibly absent message as a parameter value. */
  function AsParam(m: Option<QueueMessage>): Param {
    match m
    case None => Null
    case Some(v) => Message(v)
  }

  /** The base event's lookup: a parameter that is set and not null, else the default. */
  function BaseGetParam(e: Event, name: string, default: Param): Param {
    if name in e.params && e.params[name] != Null then e.params[name] else default
  }

  /** Parameter lookup: "message" always answers the carried message; any other name defers to the base lookup. */
  function GetParam(e: Event, name: string, default: Param): Param {
    if name == MESSAGE_PARAM then AsParam(GetMessage(e)) else BaseGetParam(e, name, default)
  }

  /** Reading the message back gives the one most recently stored. */
  lemma SetThenGet(e: Event, m1: QueueMessage, m2: QueueMessage)
    ensures GetMessage(SetMessage(e, m1)) == Some(m1)
    ensures SetMessage(SetMessage(e, m1), m2) == SetMessage(e, m2)
  {
  }

  /** Storing a message changes nothing but the message. */
  lemma SetChangesOnlyMessage(e: Event, m: QueueMessage)
    ensures SetMessage(e, m).(message := e.message) == e
  {
  }

  /** "message" is answered by the carried message whatever default is given, and ignores the parameter map. */
  lemma GetParamMessage(e: Event, d: Param, m: QueueMessage)
    ensures GetParam(e, MESSAGE_PARAM, d) == AsParam(GetMessage(e))
    ensures GetParam(SetMessage(e, m), MESSAGE_PARAM, d) == Message(m)
  {
  }

  /** Other names defer to the base lookup, and storing a message does not affect them. */
  lemma GetParamOther(e: Event, name: string, d: Param, m: QueueMessage)
    requires name != MESSAGE_PARAM
    ensures GetParam(e, name, d) == BaseGetParam(e, name, d)
    ensures GetParam(SetMessage(e, m), name, d) == GetParam(e, name, d)
  {
  }
}
