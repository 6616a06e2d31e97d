/** `ZeroMQRouter`: the RabbitMQ-like routing device of the zeromq transport. Its
    declarables (exchanges with their topic tries, queues, bindings) and its delivery-tag
    bookkeeping, with every operation run sequentially. */
module ZeroMQ {
  import opened Util
  import opened TopicRouting

  /** A message as the router queues it: exchange, routing key, body and properties. */
  datatype Message = Message(exchange: string, routingKey: string, body: string, props: map<string, string>)

  /** An entry of `_unacked`: consumer tag, queue name and the message. */
  datatype Delivery = Delivery(ctag: string, queue: string, msg: Message)

  /** `_generate_ctag`: the consumer tag for a pool id. */
  function GenerateCtag(id: nat): (ctag: string)
    ensures |ctag| > 6 && ctag[..6] == "zctag-"
  {
    "zctag-" + NatToString(id)
  }

  /** `_return_ctag`: the integer after the last '-' of a consumer tag, which goes back to
      the pool; None where `int()` would raise. */
  function ReturnCtag(ctag: string): (id: Option<nat>)
    ensures '-' !in ctag ==> id == ParseNat(ctag)
  {
    var parts := Split(ctag, '-');
    if '-' !in ctag then SplitNoSep(ctag, '-'); ParseNat(parts[|parts| - 1])
    else ParseNat(parts[|parts| - 1])
  }

  /** `_return_ctag` reads the text after the last '-' of any tag, whatever precedes it. */
  lemma ReturnCtagAfterLastDash(prefix: string, suffix: string)
    requires '-' !in suffix
    ensures ReturnCtag(prefix + "-" + suffix) == ParseNat(suffix)
  {
    SplitLastPart(prefix, suffix, '-');
    assert prefix + "-" + suffix == prefix + ['-'] + suffix;
  }

  /** `_generate_dtag`: the delivery tag of the `cnt`-th message of a consumer. */
  function GenerateDtag(ctag: string, cnt: nat): (dtag: string)
    ensures |dtag| > |ctag| && dtag[..|ctag|] == ctag && dtag[|ctag|] == '-'
  {
    ctag + "-" + NatToString(cnt)
  }

  lemma DigitsHaveNoDash(d: string)
    requires forall i :: 0 <= i < |d| ==> IsDigit(d[i])
    ensures '-' !in d
  {
    forall i | 0 <= i < |d| ensures d[i] != '-' {
      assert IsDigit(d[i]);
    }
  }

  lemma SplitDigits(d: string)
    requires forall i :: 0 <= i < |d| ==> IsDigit(d[i])
    ensures Split(d, '-') == [d]
  {
    DigitsHaveNoDash(d);
    SplitPrefix(d, "", '-');
    assert d + "" == d;
  }

  /** A generated consumer tag splits into "zctag" and the decimal id. */
  lemma CtagParts(id: nat)
    ensures Split(GenerateCtag(id), '-') == ["zctag", NatToString(id)]
  {
    var d := NatToString(id);
    SplitDigits(d);
    assert GenerateCtag(id) == "zctag" + ("-" + d);
    SplitPrefix("zctag", "-" + d, '-');
    assert ("-" + d)[0] == '-' && ("-" + d)[1..] == d;
    assert "zctag" + "" == "zctag";
  }

  /** `_return_ctag` recovers the id `_generate_ctag` embedded. */
  lemma ReturnCtagRoundTrip(id: nat)
    ensures ReturnCtag(GenerateCtag(id)) == Some(id)
  {
    CtagParts(id);
    ParseNatToString(id);
  }

  /** Delivery tags of generated consumer tags are unique: different (consumer, count)
      pairs never share a tag. */
  lemma DtagsUnique(a: nat, c1: nat, b: nat, c2: nat)
    ensures GenerateDtag(GenerateCtag(a), c1) == GenerateDtag(GenerateCtag(b), c2) <==> a == b && c1 == c2
  {
    if GenerateDtag(GenerateCtag(a), c1) == GenerateDtag(GenerateCtag(b), c2) {
      DtagParts(a, c1);
      DtagParts(b, c2);
      ParseNatToString(a);
      ParseNatToString(b);
      ParseNatToString(c1);
      ParseNatToString(c2);
    }
  }

  /** A delivery tag of a generated consumer tag splits at '-' into "zctag", the decimal
      consumer id and the decimal count. */
  lemma DtagParts(a: nat, c: nat)
    ensures Split(GenerateDtag(GenerateCtag(a), c), '-') == ["zctag", NatToString(a), NatToString(c)]
  {
    var sa, sc := NatToString(a), NatToString(c);
    var parts := ["zctag", sa, sc];
    DigitsHaveNoDash(sa);
    DigitsHaveNoDash(sc);
    assert forall i :: 0 <= i < |parts| ==> '-' !in parts[i];
    DtagJoin(sa, sc);
    SplitJoin(parts, '-');
  }

  lemma DtagJoin(sa: string, sc: string)
    ensures Join(["zctag", sa, sc], '-') == "zctag-" + sa + "-" + sc
  {
    assert ["zctag", sa, sc][1..] == [sa, sc];
    assert [sa, sc][1..] == [sc];
    assert Join([sa, sc], '-') == sa + "-" + sc;
    assert "zctag" + "-" == "zctag-";
  }

  class ZeroMQRouter {
    var exchanges: map<string, TopicTrie>
    var queues: map<string, seq<Message>>
    var bindingsByQueue: map<string, seq<(string, string)>>
    var unacked: map<string, Delivery>

    /** `_bindings_by_queue[queue]` read through the defaultdict. */
    function BindingsOf(q: string): seq<(string, string)>
      reads this
    {
      if q in bindingsByQueue then bindingsByQueue[q] else []
    }

    /** Every exchange has its own well-formed trie. */
    ghost predicate TriesValid()
      reads this, exchanges.Values
    {
      && (forall e :: e in exchanges ==> exchanges[e].Valid())
      && (forall e1, e2 :: e1 in exchanges && e2 in exchanges && e1 != e2 ==> exchanges[e1] != exchanges[e2])
    }

    /** The bookkeeping invariant: a queue stored in an exchange's trie under a key is a
        declared queue, and `_bindings_by_queue` records that (exchange, binding) pair. */
    ghost predicate Valid()
      reads this, exchanges.Values
    {
      && TriesValid()
      && forall e, key, q :: e in exchanges && q in exchanges[e].PatternsAt(key) ==> Recorded(e, key, q)
    }

    /** Queue `q` is declared and bound on exchange `e` with a binding key splitting to `key`. */
    ghost predicate Recorded(e: string, key: seq<Token>, q: string)
      reads this
    {
      q in queues && exists b :: (e, b) in BindingsOf(q) && Split(b, '.') == key
    }

    /** The queues a message with this routing key reaches through the exchange's trie. */
    ghost predicate RoutedTo(exchange: string, routingKey: string, q: string)
      reads this, exchanges.Values
      requires TriesValid() && exchange in exchanges
    {
      exists key :: KeyMatches(key, Split(routingKey, '.')) && q in exchanges[exchange].PatternsAt(key)
    }

    constructor ()
      ensures Valid()
      ensures exchanges == map[] && queues == map[] && bindingsByQueue == map[] && unacked == map[]
    {
      exchanges := map[];
      queues := map[];
      bindingsByQueue := map[];
      unacked := map[];
    }

    /** `declare_exchange`: a new exchange gets a fresh, empty trie; redeclaring changes nothing. */
    method DeclareExchange(exchange: string)
      requires Valid()
      modifies this
      ensures Valid() && exchange in exchanges
      ensures queues == old(queues) && bindingsByQueue == old(bindingsByQueue) && unacked == old(unacked)
      ensures exchange in old(exchanges) ==> exchanges == old(exchanges)
      ensures exchange !in old(exchanges) ==>
        && exchanges == old(exchanges)[exchange := exchanges[exchange]]
        && fresh(exchanges[exchange])
        && forall key :: exchanges[exchange].PatternsAt(key) == []
    {
      if exchange !in exchanges {
        var trie := new TopicTrie();
        exchanges := exchanges[exchange := trie];
      }
    }

    /** `delete_exchange`: forgets the exchange and its trie, if declared. */
    method DeleteExchange(exchange: string)
      requires Valid()
      modifies this
      ensures Valid()
      ensures exchanges == old(exchanges) - {exchange}
      ensures queues == old(queues) && bindingsByQueue == old(bindingsByQueue) && unacked == old(unacked)
    {
      if exchange in exchanges {
        exchanges := exchanges - {exchange};
      }
    }

    /** `declare_queue`: declares the queue (empty) unless it exists and returns its name.
        With no name (None or ""), a name starting with "q-" that is not yet taken is
        chosen. */
    method DeclareQueue(queue: Option<string>) returns (name: string)
      requires Valid()
      modifies this
      ensures Valid() && name in queues
      ensures queue.Some? && queue.value != "" ==> name == queue.value
      ensures (queue.None? || queue.value == "") ==> |name| >= 2 && name[..2] == "q-" && name !in old(queues)
      ensures queues == if name in old(queues) then old(queues) else old(queues)[name := []]
      ensures exchanges == old(exchanges) && bindingsByQueue == old(bindingsByQueue) && unacked == old(unacked)
    {
      if queue.None? || queue.value == "" {
        name := FreshQueueName();
      } else {
        name := queue.value;
      }
      if name !in queues {
        queues := queues[name := []];
        forall e, key, q | e in exchanges && q in exchanges[e].PatternsAt(key) ensures Recorded(e, key, q) {
          assert old(Recorded(e, key, q));
        }
      }
    }

    /** The name-proposing loop of `declare_queue`: a "q-" name no declared queue has. */
    method FreshQueueName() returns (name: string)
      ensures |name| >= 2 && name[..2] == "q-" && name !in queues
    {
      var longest: nat := 0;
      var rest := queues.Keys;
      while rest != {}
        invariant rest <= queues.Keys
        invariant forall s :: s in queues && s !in rest ==> |s| < longest
        decreases rest
      {
        var s :| s in rest;
        if |s| >= longest {
          longest := |s| + 1;
        }
        rest := rest - {s};
      }
      name := "q-" + seq(longest, _ => '0');
      assert |name| > longest;
    }

    /** `delete_queue`: forgets the queue and removes it from the trie of every exchange it
        was bound on that still exists; no other queue's bindings change. */
    method DeleteQueue(queue: string)
      requires Valid()
      modifies this, exchanges.Values
      ensures Valid()
      ensures queues == old(queues) - {queue}
      ensures bindingsByQueue == if queue in old(queues) then old(bindingsByQueue)[queue := old(BindingsOf(queue))] else old(bindingsByQueue)
      ensures exchanges == old(exchanges) && unacked == old(unacked)
      ensures forall e, key, p :: e in exchanges ==>
        (p in exchanges[e].PatternsAt(key) <==> p != queue && p in old(exchanges[e].PatternsAt(key)))
    {
      if queue !in queues {
        forall e, key, p | e in exchanges && p in exchanges[e].PatternsAt(key) ensures p != queue {
          assert Recorded(e, key, p);
        }
        return;
      }
      var bindings := BindingsOf(queue);
      RemoveFromTries(queue, bindings);
      queues := queues - {queue};
      bindingsByQueue := bindingsByQueue[queue := bindings];
      forall e, key, p | e in exchanges
        ensures p in exchanges[e].PatternsAt(key) <==> p != queue && p in old(exchanges[e].PatternsAt(key))
      {
        if p == queue && p in old(exchanges[e].PatternsAt(key)) {
          assert old(Recorded(e, key, p));
          var b :| (e, b) in bindings && Split(b, '.') == key;
          var j :| 0 <= j < |bindings| && bindings[j] == (e, b);
        }
      }
      forall e, key, p | e in exchanges && p in exchanges[e].PatternsAt(key) ensures Recorded(e, key, p) {
        assert old(Recorded(e, key, p));
      }
    }

    /** The loop of `delete_queue`: for each (exchange, binding) pair, the queue leaves the
        trie of that exchange, when the exchange still exists. */
    method RemoveFromTries(queue: string, bindings: seq<(string, string)>)
      requires TriesValid()
      modifies exchanges.Values
      ensures TriesValid()
      ensures forall e, key, p :: e in exchanges ==>
        (p in exchanges[e].PatternsAt(key) <==> (p in old(exchanges[e].PatternsAt(key))
           && !(p == queue && exists j :: 0 <= j < |bindings| && bindings[j].0 == e && Split(bindings[j].1, '.') == key)))
    {
      var i := 0;
      while i < |bindings|
        invariant 0 <= i <= |bindings|
        invariant TriesValid()
        invariant forall e, key, p :: e in exchanges ==>
          (p in exchanges[e].PatternsAt(key) <==> (p in old(exchanges[e].PatternsAt(key))
             && !(p == queue && exists j :: 0 <= j < i && bindings[j].0 == e && Split(bindings[j].1, '.') == key)))
      {
        var (ex, binding) := bindings[i];
        if ex in exchanges {
          RemoveFromTrie(ex, binding, queue);
        }
        i := i + 1;
      }
    }

    /** The loop of `_route`: the message is appended to each of the given queues. */
    method AppendToAll(targets: set<string>, msg: Message)
      requires forall q :: q in targets ==> q in queues
      modifies this
      ensures exchanges == old(exchanges) && bindingsByQueue == old(bindingsByQueue) && unacked == old(unacked)
      ensures queues.Keys == old(queues.Keys)
      ensures forall q :: q in queues ==>
        queues[q] == if q in targets then old(queues[q]) + [msg] else old(queues[q])
    {
      var rest := targets;
      while rest != {}
        invariant rest <= targets
        invariant exchanges == old(exchanges) && bindingsByQueue == old(bindingsByQueue) && unacked == old(unacked)
        invariant queues.Keys == old(queues.Keys)
        invariant forall q :: q in queues ==>
          queues[q] == if q in targets - rest then old(queues[q]) + [msg] else old(queues[q])
        decreases rest
      {
        var q :| q in rest;
        queues := queues[q := queues[q] + [msg]];
        rest := rest - {q};
      }
    }

    /** One `add_topic_tree` call on the trie of `ex`: `queue` joins the patterns under the
        binding key of that trie and nothing else changes. */
    method AddToTrie(ex: string, binding: string, queue: string)
      requires TriesValid() && ex in exchanges
      modifies exchanges[ex]
      ensures TriesValid()
      ensures forall e, key, p :: e in exchanges ==>
        (p in exchanges[e].PatternsAt(key) <==> (p in old(exchanges[e].PatternsAt(key))
           || (e == ex && key == Split(binding, '.') && p == queue)))
    {
      var trie := exchanges[ex];
      trie.AddTopicTree(binding, queue);
    }

    /** One `remove_topic_tree` call on the trie of `ex`: `queue` leaves the patterns under
        the binding key of that trie and nothing else changes. */
    method RemoveFromTrie(ex: string, binding: string, queue: string)
      requires TriesValid() && ex in exchanges
      modifies exchanges[ex]
      ensures TriesValid()
      ensures forall e, key, p :: e in exchanges ==>
        (p in exchanges[e].PatternsAt(key) <==> (p in old(exchanges[e].PatternsAt(key))
           && !(e == ex && key == Split(binding, '.') && p == queue)))
    {
      var trie := exchanges[ex];
      ghost var key := Split(binding, '.');
      ghost var before := trie.PatternsAt(key);
      trie.RemoveTopicTree(binding, queue);
      forall p | p != queue ensures p in trie.PatternsAt(key) <==> p in before {
        RemoveFirstKeepsOthers(before, queue, p);
      }
    }

    /** `bind`: the exchange and the queue must be declared; the queue is stored in the
        exchange's trie under the binding key and the pair is appended to the queue's
        bindings. */
    method Bind(exchange: string, queue: string, binding: string) returns (ok: bool)
      requires Valid()
      modifies this, exchanges.Values
      ensures Valid()
      ensures ok <==> exchange in old(exchanges) && queue in old(queues)
      ensures exchanges == old(exchanges) && queues == old(queues) && unacked == old(unacked)
      ensures !ok ==> bindingsByQueue == old(bindingsByQueue)
      ensures ok ==> bindingsByQueue == old(bindingsByQueue)[queue := old(BindingsOf(queue)) + [(exchange, binding)]]
      ensures forall e, key, p :: e in exchanges ==>
        (p in exchanges[e].PatternsAt(key) <==> (p in old(exchanges[e].PatternsAt(key))
           || (ok && e == exchange && key == Split(binding, '.') && p == queue)))
    {
      if exchange !in exchanges || queue !in queues {
        return false;
      }
      ok := true;
      AddToTrie(exchange, binding, queue);
      bindingsByQueue := bindingsByQueue[queue := BindingsOf(queue) + [(exchange, binding)]];
      forall e, k, q | e in exchanges && q in exchanges[e].PatternsAt(k) ensures Recorded(e, k, q) {
        if e == exchange && k == Split(binding, '.') && q == queue {
          assert (exchange, binding) in BindingsOf(q);
        } else {
          assert old(Recorded(e, k, q));
          var b :| (e, b) in old(BindingsOf(q)) && Split(b, '.') == k;
          assert (e, b) in BindingsOf(q);
        }
      }
    }

    /** `unbind`: the exchange and the queue must be declared; the queue leaves the
        exchange's trie under the binding key and the first matching (exchange, binding)
        entry of the queue's bindings is popped. */
    method Unbind(exchange: string, queue: string, binding: string) returns (ok: bool)
      requires Valid()
      modifies this, exchanges.Values
      ensures Valid()
      ensures ok <==> exchange in old(exchanges) && queue in old(queues)
      ensures exchanges == old(exchanges) && queues == old(queues) && unacked == old(unacked)
      ensures !ok ==> bindingsByQueue == old(bindingsByQueue)
      ensures ok ==> bindingsByQueue == old(bindingsByQueue)[queue := RemoveFirst(old(BindingsOf(queue)), (exchange, binding))]
      ensures forall e, key, p :: e in exchanges ==>
        (p in exchanges[e].PatternsAt(key) <==> (p in old(exchanges[e].PatternsAt(key))
           && !(ok && e == exchange && key == Split(binding, '.') && p == queue)))
    {
      if exchange !in exchanges || queue !in queues {
        return false;
      }
      ok := true;
      RemoveFromTrie(exchange, binding, queue);
      forall e, k, q | e in exchanges && q in exchanges[e].PatternsAt(k) ensures Recorded(e, k, q) {
        assert old(Recorded(e, k, q));
      }
      PopBinding(exchange, queue, binding);
    }

    /** The search-and-pop loop of `unbind`: the first (exchange, binding) entry of the
        queue's bindings is popped. The queue is no longer stored under that key, so every
        stored queue keeps a recorded binding. */
    method PopBinding(exchange: string, queue: string, binding: string)
      requires Valid() && exchange in exchanges
      requires queue !in exchanges[exchange].PatternsAt(Split(binding, '.'))
      modifies this
      ensures Valid()
      ensures bindingsByQueue == old(bindingsByQueue)[queue := RemoveFirst(old(BindingsOf(queue)), (exchange, binding))]
      ensures exchanges == old(exchanges) && queues == old(queues) && unacked == old(unacked)
    {
      var list := BindingsOf(queue);
      var i := 0;
      while i < |list| && list[i] != (exchange, binding)
        invariant 0 <= i <= |list|
        invariant forall k :: 0 <= k < i ==> list[k] != (exchange, binding)
      {
        i := i + 1;
      }
      if i < |list| {
        RemoveFirstAt(list, (exchange, binding), i);
        list := list[..i] + list[i + 1..];
      } else {
        assert (exchange, binding) !in list;
      }
      bindingsByQueue := bindingsByQueue[queue := list];
      forall e, k, q | e in exchanges && q in exchanges[e].PatternsAt(k) ensures Recorded(e, k, q) {
        assert old(Recorded(e, k, q));
        var b :| (e, b) in old(BindingsOf(q)) && Split(b, '.') == k;
        if q == queue {
          RemoveFirstKeepsOthers(old(BindingsOf(q)), (exchange, binding), (e, b));
        }
        assert (e, b) in BindingsOf(q);
      }
    }

    /** `_route`: the exchange must be declared; the message is appended to every queue its
        routing key reaches, and to no other. Every queue reached is declared, so the
        per-queue assertion never fails. */
    method Route(exchange: string, routingKey: string, body: string, props: map<string, string>) returns (ok: bool)
      requires Valid()
      modifies this
      ensures Valid()
      ensures ok <==> exchange in exchanges
      ensures exchanges == old(exchanges) && bindingsByQueue == old(bindingsByQueue) && unacked == old(unacked)
      ensures queues.Keys == old(queues.Keys)
      ensures ok ==> forall q :: q in queues ==>
        queues[q] == if RoutedTo(exchange, routingKey, q) then old(queues[q]) + [Message(exchange, routingKey, body, props)] else old(queues[q])
      ensures !ok ==> queues == old(queues)
    {
      if exchange !in exchanges {
        return false;
      }
      ok := true;
      var matched := exchanges[exchange].GetAllMatches(routingKey);
      forall q | q in matched ensures q in queues {
        var key :| KeyMatches(key, Split(routingKey, '.')) && q in exchanges[exchange].PatternsAt(key);
        assert Recorded(exchange, key, q);
      }
      AppendToAll(matched, Message(exchange, routingKey, body, props));
      forall e, key, q | e in exchanges && q in exchanges[e].PatternsAt(key) ensures Recorded(e, key, q) {
        assert old(Recorded(e, key, q));
      }
    }

    /** The bookkeeping step of a consumer's delivery: the `cnt`-th message taken from
        `queue` by consumer `ctag` is filed as unacknowledged under its delivery tag. */
    method RecordDelivery(ctag: string, queue: string, cnt: nat, msg: Message) returns (dtag: string)
      requires Valid()
      modifies this
      ensures Valid()
      ensures dtag == GenerateDtag(ctag, cnt)
      ensures unacked == old(unacked)[dtag := Delivery(ctag, queue, msg)]
      ensures exchanges == old(exchanges) && queues == old(queues) && bindingsByQueue == old(bindingsByQueue)
    {
      dtag := GenerateDtag(ctag, cnt);
      unacked := unacked[dtag := Delivery(ctag, queue, msg)];
    }

    /** `ack`: the delivery tag must be unacknowledged; exactly that entry is removed. */
    method Ack(deliveryTag: string) returns (ok: bool)
      requires Valid()
      modifies this
      ensures Valid()
      ensures ok <==> deliveryTag in old(unacked)
      ensures unacked == old(unacked) - {deliveryTag}
      ensures exchanges == old(exchanges) && queues == old(queues) && bindingsByQueue == old(bindingsByQueue)
    {
      if deliveryTag !in unacked {
        return false;
      }
      unacked := unacked - {deliveryTag};
      ok := true;
    }

    /** `reject` without requeue: the delivery tag must be unacknowledged; exactly that
        entry is popped and returned. */
    method Reject(deliveryTag: string) returns (popped: Option<Delivery>)
      requires Valid()
      modifies this
      ensures Valid()
      ensures popped.Some? <==> deliveryTag in old(unacked)
      ensures popped.Some? ==> popped.value == old(unacked)[deliveryTag]
      ensures unacked == old(unacked) - {deliveryTag}
      ensures exchanges == old(exchanges) && queues == old(queues) && bindingsByQueue == old(bindingsByQueue)
    {
      if deliveryTag !in unacked {
        return None;
      }
      popped := Some(unacked[deliveryTag]);
      unacked := unacked - {deliveryTag};
    }
  }

  /** Once a queue is bound on an exchange, a message routed there with the binding key as
      its routing key lands at the tail of that queue. */
  method BindThenRoute(router: ZeroMQRouter, exchange: string, queue: string, binding: string, body: string, props: map<string, string>)
    requires router.Valid() && exchange in router.exchanges && queue in router.queues
    modifies router, router.exchanges.Values
    ensures router.Valid() && queue in router.queues
    ensures router.queues[queue] == old(router.queues[queue]) + [Message(exchange, binding, body, props)]
  {
    var bound := router.Bind(exchange, queue, binding);
    var routed := router.Route(exchange, binding, body, props);
    KeyMatchesItself(Split(binding, '.'));
    assert router.RoutedTo(exchange, binding, queue);
  }
}
