/** `LocalBroker`: the in-process broker behind the local transport. */
module LocalBrokerModel {

  /** The record kept per declared exchange. */
  datatype ExchangeRecord = ExchangeRecord(exchange: string, exchangeType: string, durable: bool, autoDelete: bool)

  /** One entry of `_binds`: exchange, queue, routing key and the callback to invoke,
      which the model identifies by a number. */
  datatype LocalBind = LocalBind(exchange: string, queue: string, routingKey: string, callback: nat)

  /** The binds whose exchange equals `exchange` and whose key equals `routingKey`
      (the local broker compares keys for equality only), in list order: a bind is
      delivered to exactly when it is registered for that exchange and key. */
  function MatchingBinds(binds: seq<LocalBind>, exchange: string, routingKey: string): (r: seq<LocalBind>)
    ensures |r| <= |binds|
    ensures forall b :: b in r <==> b in binds && b.exchange == exchange && b.routingKey == routingKey
  {
    if |binds| == 0 then []
    else
      var b := binds[|binds| - 1];
      assert binds == binds[..|binds| - 1] + [b];
      MatchingBinds(binds[..|binds| - 1], exchange, routingKey)
      + (if b.exchange == exchange && b.routingKey == routingKey then [b] else [])
  }

  class LocalBroker {
    var exchanges: map<string, ExchangeRecord>
    var binds: seq<LocalBind>

    /** Every record is filed under its own name and is of type 'topic'. */
    ghost predicate Valid()
      reads this
    {
      forall e :: e in exchanges ==> exchanges[e].exchange == e && exchanges[e].exchangeType == "topic"
    }

    constructor ()
      ensures Valid() && exchanges == map[] && binds == []
    {
      exchanges := map[];
      binds := [];
    }

    /** `declare_exchange`: a first declaration must be of type 'topic' and records all four
        fields; a redeclaration succeeds only with the same type, durability and auto-delete
        flag, and changes nothing. A failed assertion is `ok == false` with no change. */
    method DeclareExchange(exchange: string, exchangeType: string, durable: bool, autoDelete: bool) returns (ok: bool)
      requires Valid()
      modifies this
      ensures Valid() && binds == old(binds)
      ensures exchange in old(exchanges) ==>
        exchanges == old(exchanges)
        && (ok <==> old(exchanges)[exchange] == ExchangeRecord(exchange, exchangeType, durable, autoDelete))
      ensures exchange !in old(exchanges) ==>
        (ok <==> exchangeType == "topic")
        && exchanges == if ok then old(exchanges)[exchange := ExchangeRecord(exchange, exchangeType, durable, autoDelete)]
                        else old(exchanges)
    {
      if exchange in exchanges {
        var exrec := exchanges[exchange];
        ok := exrec.exchangeType == exchangeType && exrec.durable == durable && exrec.autoDelete == autoDelete;
      } else {
        ok := exchangeType == "topic";
        if ok {
          exchanges := exchanges[exchange := ExchangeRecord(exchange, exchangeType, durable, autoDelete)];
        }
      }
    }

    /** `incoming`: collects the binds for this exchange and routing key, in order, and
        invokes each one's callback (here: returns them); always accepts the message. */
    method Incoming(exchange: string, routingKey: string) returns (calls: seq<LocalBind>, accepted: bool)
      ensures calls == MatchingBinds(binds, exchange, routingKey)
      ensures accepted
    {
      calls := [];
      var i := 0;
      while i < |binds|
        invariant 0 <= i <= |binds|
        invariant calls == MatchingBinds(binds[..i], exchange, routingKey)
      {
        assert binds[..i + 1][..i] == binds[..i];
        if binds[i].exchange == exchange && binds[i].routingKey == routingKey {
          calls := calls + [binds[i]];
        }
        i := i + 1;
      }
      assert binds[..i] == binds;
      accepted := true;
    }
  }

  /** Declaring the same exchange twice with the same parameters succeeds twice and
      records it once. */
  method DeclareTwice(broker: LocalBroker, exchange: string, durable: bool, autoDelete: bool)
    returns (first: bool, second: bool)
    requires broker.Valid()
    modifies broker
    ensures first == second
    ensures exchange !in old(broker.exchanges) ==> first && second
    ensures broker.exchanges == old(broker.exchanges)[exchange := ExchangeRecord(exchange, "topic", durable, autoDelete)]
            || (!first && broker.exchanges == old(broker.exchanges))
  {
    first := broker.DeclareExchange(exchange, "topic", durable, autoDelete);
    second := broker.DeclareExchange(exchange, "topic", durable, autoDelete);
  }
}
