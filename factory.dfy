/** The message envelope factory: build a fresh envelope, forward a delivery
    with a new body, or build the kickback (requeue) envelope of a delivery
    under a bounded retry budget. The header table of the result IS the
    delivery's table when the delivery had one, so the factory's writes to
    the retry count are seen through the delivery as well. */
module Factory {
  import opened Envelope

  /** The headers of a freshly created envelope. */
  function CreatedHeaders(): (h: map<string, Value>)
    ensures h.Keys == {RetryCountHeader}
    ensures RetryCount(h) == Success(0)
    ensures OtherHeaders(h) == map[]
  {
    map[RetryCountHeader := Int64(0)]
  }

  /** The headers after a forward: the retry count is reset, whatever it was. */
  function ForwardedHeaders(h: map<string, Value>): (r: map<string, Value>)
    ensures RetryCount(r) == Success(0)
    ensures OtherHeaders(r) == OtherHeaders(h)
    ensures r.Keys == h.Keys + {RetryCountHeader}
  {
    h[RetryCountHeader := Int64(0)]
  }

  /** The properties a forward keeps: content type, content encoding,
      delivery mode and type; all others are at their zero value. */
  function ForwardedProperties(p: Properties): (r: Properties)
    ensures r.contentType == p.contentType && r.contentEncoding == p.contentEncoding
    ensures r.deliveryMode == p.deliveryMode && r.messageType == p.messageType
    ensures r.(contentType := "", contentEncoding := "", deliveryMode := 0, messageType := "") == NoProperties
  {
    NoProperties.(contentType := p.contentType, contentEncoding := p.contentEncoding,
                  deliveryMode := p.deliveryMode, messageType := p.messageType)
  }

  /** The properties a kickback keeps: all ten broker properties; the user
      id and application id are not copied and end up empty. */
  function KickbackProperties(p: Properties): (r: Properties)
    ensures r.contentType == p.contentType && r.contentEncoding == p.contentEncoding
    ensures r.deliveryMode == p.deliveryMode && r.priority == p.priority
    ensures r.correlationId == p.correlationId && r.replyTo == p.replyTo
    ensures r.expiration == p.expiration && r.messageId == p.messageId
    ensures r.timestamp == p.timestamp && r.messageType == p.messageType
    ensures r.userId == "" && r.appId == ""
  {
    Properties(p.contentType, p.contentEncoding, p.deliveryMode, p.priority,
               p.correlationId, p.replyTo, p.expiration, p.messageId,
               p.timestamp, p.messageType, "", "")
  }

  /** The table after the kickback has filled in a missing retry count. */
  function WithRetryDefault(h: map<string, Value>): (r: map<string, Value>)
    ensures RetryCount(r) == RetryCount(h)
    ensures RetryCountHeader in r && OtherHeaders(r) == OtherHeaders(h)
    ensures RetryCountHeader in h ==> r == h
  {
    if RetryCountHeader in h then h else h[RetryCountHeader := Int64(0)]
  }

  /** The headers of the kickback envelope, or why there is none: the count
      checked against the budget is the one BEFORE the increment, so a count
      equal to maxRetries still passes and is raised to maxRetries + 1. */
  function KickbackHeaders(maxRetries: int64, h: map<string, Value>): (r: Result<map<string, Value>, Error>)
    ensures r.Success? <==> RetryCount(h).Success? && RetryCount(h).value <= maxRetries
    ensures RetryCount(h).Failure? ==> r == Failure(RetryCountNotInt64)
    ensures RetryCount(h).Success? && RetryCount(h).value > maxRetries ==> r == Failure(TooManyRetries)
    ensures r.Success? ==> RetryCount(r.value) == Success(WrapIncrement(RetryCount(h).value))
    ensures r.Success? ==> OtherHeaders(r.value) == OtherHeaders(h)
    ensures r.Success? ==> r.value.Keys == h.Keys + {RetryCountHeader}
  {
    var h0 := WithRetryDefault(h);
    match h0[RetryCountHeader]
    case Int64(n) =>
      if n > maxRetries then Failure(TooManyRetries)
      else Success(h0[RetryCountHeader := Int64(WrapIncrement(n))])
    case _ => Failure(RetryCountNotInt64)
  }

  /** CreateMessage: serialise the body and wrap it in an envelope whose only
      header is a retry count of 0. */
  method CreateMessage<B>(marshal: B -> Result<Bytes, string>, body: B) returns (pub: Publishing, err: Option<Error>)
    ensures marshal(body).Failure? ==> pub == EmptyPublishing && err == Some(MarshalFailed(marshal(body).error))
    ensures marshal(body).Success? ==> err == None
    ensures marshal(body).Success? ==>
      && pub.headers != null && fresh(pub.headers)
      && pub.headers.entries == CreatedHeaders()
      && pub.props == NoProperties
      && pub.body == marshal(body).value
  {
    var rawBody := marshal(body);
    if rawBody.Failure? {
      return EmptyPublishing, Some(MarshalFailed(rawBody.error));
    }
    var headers := new Table(map[RetryCountHeader := Int64(0)]);
    pub := Publishing(headers, NoProperties, rawBody.value);
    err := None;
  }

  /** GetNextMessage: forward a delivery with a new body. The delivery's
      header table is reused (a fresh one when it had none) and its retry
      count is reset to 0. */
  method GetNextMessage<B>(msg: Delivery, marshal: B -> Result<Bytes, string>, body: B)
    returns (pub: Publishing, err: Option<Error>)
    modifies msg.headers
    ensures marshal(body).Failure? ==>
      && pub == EmptyPublishing && err == Some(MarshalFailed(marshal(body).error))
      && (msg.headers != null ==> msg.headers.entries == old(msg.headers.entries))
    ensures marshal(body).Success? ==>
      && err == None
      && pub.headers != null
      && pub.headers.entries == ForwardedHeaders(old(Entries(msg.headers)))
      && pub.props == ForwardedProperties(msg.props)
      && pub.body == marshal(body).value
    ensures marshal(body).Success? && msg.headers != null ==> pub.headers == msg.headers
    ensures marshal(body).Success? && msg.headers == null ==> fresh(pub.headers)
  {
    var rawBody := marshal(body);
    if rawBody.Failure? {
      return EmptyPublishing, Some(MarshalFailed(rawBody.error));
    }
    pub := Publishing(msg.headers, ForwardedProperties(msg.props), rawBody.value);
    if pub.headers == null {
      var headers := new Table(map[]);
      pub := pub.(headers := headers);
    }
    pub.headers.Set(RetryCountHeader, Int64(0));
    err := None;
  }

  /** GetKickbackMessage: requeue a delivery unchanged except for its retry
      count. The delivery's header table is reused (a fresh one when it had
      none); a missing count is written into it as 0 before the budget is
      checked, so that write survives a refusal. */
  method GetKickbackMessage(maxRetries: int64, msg: Delivery) returns (pub: Publishing, err: Option<Error>)
    modifies msg.headers
    ensures var k := KickbackHeaders(maxRetries, old(Entries(msg.headers)));
      && (err.Some? <==> k.Failure?)
      && (k.Failure? ==> pub == EmptyPublishing && err == Some(k.error))
      && (k.Success? ==> pub.headers != null && pub.headers.entries == k.value)
    ensures err.None? ==> pub.props == KickbackProperties(msg.props) && pub.body == msg.body
    ensures err.None? && msg.headers != null ==> pub.headers == msg.headers
    ensures err.None? && msg.headers == null ==> fresh(pub.headers)
    ensures err.Some? && msg.headers != null ==> msg.headers.entries == WithRetryDefault(old(msg.headers.entries))
  {
    pub := Publishing(msg.headers, KickbackProperties(msg.props), msg.body);
    if pub.headers == null {
      var headers := new Table(map[]);
      pub := pub.(headers := headers);
    }
    if RetryCountHeader !in pub.headers.entries {
      pub.headers.Set(RetryCountHeader, Int64(0));
    }
    var count := pub.headers.entries[RetryCountHeader];
    if !count.Int64? {
      return EmptyPublishing, Some(RetryCountNotInt64);
    }
    if count.i64 > maxRetries {
      return EmptyPublishing, Some(TooManyRetries);
    }
    pub.headers.Set(RetryCountHeader, Int64(WrapIncrement(count.i64)));
    err := None;
  }
}
