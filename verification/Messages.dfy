/** WHAD messages as the transport sees them, and the abstract protocol hub. */
module Messages {
  import opened ByteStrings

  /** How `dispatch_message` and `on_domain_msg` tell messages apart. */
  datatype Category = Discovery | Generic(kind: GenericKind) | Packet | Event | OtherDomain | NoDomain

  /** Command results, among them those with code UNSUPPORTED_DOMAIN, and the rest. */
  datatype GenericKind = CommandResult | UnsupportedDomain | OtherGeneric

  datatype Message = Message(category: Category, body: Bytes)

  type Filter = Message -> bool

  /** The filter `message_filter(CommandResult)`. */
  predicate IsCommandResult(m: Message) {
    m.category.Generic? && m.category.kind != OtherGeneric
  }

  /** `on_generic_msg` raises on an UNSUPPORTED_DOMAIN result. */
  predicate Refused(m: Message) {
    m.category == Generic(UnsupportedDomain)
  }

  /** A message; nothing, when the bytes do not decode; or an exception, when they decode
      to a message of no known kind. */
  datatype Parsed = Good(message: Message) | Skipped | Raised

  /** Protobuf parsing and serialisation, and the packet/event conversions. */
  datatype Hub = Hub(
    parse: Bytes -> Parsed,
    serialize: Message -> Bytes,
    toPacket: Message -> Option<Bytes>,
    toEvent: Message -> Option<Bytes>)
  {
    /** Parsing undoes serialisation. */
    ghost predicate Faithful() {
      forall m :: parse(serialize(m)) == Good(m)
    }

    /** The messages in a list of payloads; those that give none are skipped. */
    function ParseAll(payloads: seq<Bytes>): seq<Message> {
      if payloads == [] then []
      else
        var rest := ParseAll(payloads[1..]);
        if parse(payloads[0]).Good? then [parse(payloads[0]).message] + rest else rest
    }

    function SerializeAll(messages: seq<Message>): (r: seq<Bytes>)
      ensures |r| == |messages|
    {
      if messages == [] then [] else [serialize(messages[0])] + SerializeAll(messages[1..])
    }
  }

  lemma {:induction false} ParseAllAppend(hub: Hub, a: seq<Bytes>, b: seq<Bytes>)
    ensures hub.ParseAll(a + b) == hub.ParseAll(a) + hub.ParseAll(b)
  {
    if a == [] {
      assert a + b == b;
    } else {
      assert (a + b)[1..] == a[1..] + b;
      ParseAllAppend(hub, a[1..], b);
    }
  }

  lemma {:induction false} ParseAllSerializeAll(hub: Hub, messages: seq<Message>)
    requires hub.Faithful()
    ensures hub.ParseAll(hub.SerializeAll(messages)) == messages
  {
    if messages != [] {
      ParseAllSerializeAll(hub, messages[1..]);
    }
  }
}
