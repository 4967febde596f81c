/**
 * The records the persistence layer stores, and the collaborators it calls but does not own:
 * the msgpack codec, the Qlobber topic matcher and the aedes-packet constructor. Each
 * collaborator is a function value of `Env`; properties that need one to behave (a codec
 * that decodes what it encoded) take that as a hypothesis.
 */
module Records {
  import opened Wrappers
  import opened Text

  /**
   * The fields of an MQTT publish packet that the persistence layer reads or writes.
   * `brokerId`, `brokerCounter` and `clientId` may be missing (`undefined` in JavaScript).
   */
  datatype Packet = Packet(
    topic: string,
    payload: string,
    qos: int,
    retain: bool,
    messageId: int,
    brokerId: Option<string>,
    brokerCounter: Option<int>,
    clientId: Option<string>)

  /** A subscription as the broker hands it over: a topic pattern and its QoS. */
  datatype Subscription = Subscription(topic: string, qos: int)

  /** A serializer: values become opaque byte strings and back. */
  datatype Codec<!T> = Codec(encode: T -> string, decode: string -> T)

  /** The codec decodes every encoding to the value encoded. */
  ghost predicate Lawful<T(!new)>(codec: Codec<T>) {
    forall x :: codec.decode(codec.encode(x)) == x
  }

  /**
   * What one persistence instance works with besides the store:
   * - `packets`, `subscriptions`: msgpack, used for packets and for subscription records;
   * - `matches(pattern, topic)`: a Qlobber holding only `pattern` matches `topic`;
   * - `repack`: the aedes-packet constructor `new Packet(p)`;
   * - `brokerId`: the id of the broker this instance serves.
   */
  datatype Env = Env(
    packets: Codec<Packet>,
    subscriptions: Codec<Subscription>,
    matches: (string, string) -> bool,
    repack: Packet -> Packet,
    brokerId: string)

  /** String concatenation of a field that may be `undefined`. */
  function JsText(v: Option<string>): string {
    if v.Some? then v.value else "undefined"
  }

  /** String concatenation of a numeric field that may be `undefined`. */
  function JsNumberText(v: Option<int>): string {
    if v.Some? then IntText(v.value) else "undefined"
  }

  /** JavaScript truthiness of a string field: present and not empty. */
  predicate Truthy(v: Option<string>) {
    v.Some? && v.value != ""
  }
}
