/** The bound envelope factory: an object holding a fixed retry budget that
    hands every call to the factory with that budget. */
module Messenger {
  import opened Envelope
  import Factory

  class AmqpMessage {
    /** The retry budget, fixed at construction. */
    const maxRetries: int64

    /** NewAMQPMessage. */
    constructor (maxRetries: int64)
      ensures this.maxRetries == maxRetries
    {
      this.maxRetries := maxRetries;
    }

    method CreateMessage<B>(marshal: B -> Result<Bytes, string>, body: B) returns (pub: Publishing, err: Option<Error>)
      ensures marshal(body).Failure? ==> pub == EmptyPublishing && err == Some(MarshalFailed(marshal(body).error))
      ensures marshal(body).Success? ==>
        && err == None && pub.headers != null && fresh(pub.headers)
        && pub.headers.entries == Factory.CreatedHeaders()
        && pub.props == NoProperties && pub.body == marshal(body).value
    {
      pub, err := Factory.CreateMessage(marshal, body);
    }

    method GetNextMessage<B>(msg: Delivery, marshal: B -> Result<Bytes, string>, body: B)
      returns (pub: Publishing, err: Option<Error>)
      modifies msg.headers
      ensures marshal(body).Failure? ==>
        && pub == EmptyPublishing && err == Some(MarshalFailed(marshal(body).error))
        && (msg.headers != null ==> msg.headers.entries == old(msg.headers.entries))
      ensures marshal(body).Success? ==>
        && err == None && pub.headers != null
        && pub.headers.entries == Factory.ForwardedHeaders(old(Entries(msg.headers)))
        && pub.props == Factory.ForwardedProperties(msg.props)
        && pub.body == marshal(body).value
      ensures marshal(body).Success? && msg.headers != null ==> pub.headers == msg.headers
      ensures marshal(body).Success? && msg.headers == null ==> fresh(pub.headers)
    {
      pub, err := Factory.GetNextMessage(msg, marshal, body);
    }

    /** The kickback under this object's budget. */
    method GetKickbackMessage(msg: Delivery) returns (pub: Publishing, err: Option<Error>)
      modifies msg.headers
      ensures var k := Factory.KickbackHeaders(maxRetries, old(Entries(msg.headers)));
        && (err.Some? <==> k.Failure?)
        && (k.Failure? ==> pub == EmptyPublishing && err == Some(k.error))
        && (k.Success? ==> pub.headers != null && pub.headers.entries == k.value)
      ensures err.None? ==> pub.props == Factory.KickbackProperties(msg.props) && pub.body == msg.body
      ensures err.None? && msg.headers != null ==> pub.headers == msg.headers
      ensures err.None? && msg.headers == null ==> fresh(pub.headers)
      ensures err.Some? && msg.headers != null ==> msg.headers.entries == Factory.WithRetryDefault(old(msg.headers.entries))
    {
      pub, err := Factory.GetKickbackMessage(maxRetries, msg);
    }
  }
}
