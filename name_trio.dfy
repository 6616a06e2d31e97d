/** `NameTrio`: the (exchange, queue, binding) names an endpoint uses, with the binding
    defaulting to the queue name. */
module Names {
  import opened Util

  /** A name as the caller passes it: Python's None or a string. */
  type Name = Option<string>

  /** One constructor argument: a plain name or a tuple of names. */
  datatype NameArg = Plain(value: Name) | Tuple(items: seq<Name>)

  /** The three stored fields. */
  datatype NameTrio = NameTrio(exchange: Name, queue: Name, rawBinding: Name)

  /** Python truthiness of a name: neither None nor the empty string. */
  predicate Truthy(n: Name)
  {
    n.Some? && n.value != ""
  }

  /** `list(t) + [None] * (3 - len(t))` unpacked into the three fields; unpacking fails
      (None) when the tuple has more than three items. */
  function FromTuple(items: seq<Name>): (r: Option<NameTrio>)
    ensures r.Some? <==> |items| <= 3
    ensures r.Some? ==>
      && r.value.exchange == (if |items| > 0 then items[0] else None)
      && r.value.queue == (if |items| > 1 then items[1] else None)
      && r.value.rawBinding == (if |items| > 2 then items[2] else None)
  {
    if |items| > 3 then None
    else
      var padded := items + seq(3 - |items|, _ => None);
      Some(NameTrio(padded[0], padded[1], padded[2]))
  }

  /** `NameTrio(exchange, queue, binding)`: a tuple `exchange` supplies all three fields;
      otherwise a tuple `queue` does (the exchange argument is then dropped); otherwise the
      three arguments are stored as given. */
  function MakeNameTrio(exchange: NameArg, queue: NameArg, binding: Name): (r: Option<NameTrio>)
    ensures r.None? <==> (exchange.Tuple? && |exchange.items| > 3) || (exchange.Plain? && queue.Tuple? && |queue.items| > 3)
    ensures exchange.Tuple? ==> r == FromTuple(exchange.items)
    ensures exchange.Plain? && queue.Tuple? ==> r == FromTuple(queue.items)
    ensures exchange.Plain? && queue.Plain? ==> r == Some(NameTrio(exchange.value, queue.value, binding))
  {
    if exchange.Tuple? then FromTuple(exchange.items)
    else if queue.Tuple? then FromTuple(queue.items)
    else Some(NameTrio(exchange.value, queue.value, binding))
  }

  /** The `binding` property: the explicit binding when it is truthy, else the queue. */
  function Binding(nt: NameTrio): (b: Name)
    ensures b == nt.rawBinding || b == nt.queue
    ensures Truthy(b) <==> Truthy(nt.rawBinding) || Truthy(nt.queue)
  {
    if Truthy(nt.rawBinding) then nt.rawBinding else nt.queue
  }

  /** An (exchange, queue) pair binds by the queue name: the missing third field is None. */
  lemma PairBindsByQueue(ex: Name, q: Name, other: NameArg, binding: Name)
    ensures var r := MakeNameTrio(Tuple([ex, q]), other, binding);
      r.Some? && r.value.exchange == ex && r.value.queue == q && Binding(r.value) == q
  {
    var r := MakeNameTrio(Tuple([ex, q]), other, binding);
    assert r.value.rawBinding == None;
  }

  /** A tuple argument of at most three names is padded with None to exactly three
      fields, and every other argument is ignored. */
  lemma TupleArgumentPadded(items: seq<Name>, other: NameArg, binding: Name)
    requires |items| <= 3
    ensures MakeNameTrio(Tuple(items), other, binding) == MakeNameTrio(Plain(None), Tuple(items), None)
    ensures var nt := MakeNameTrio(Tuple(items), other, binding).value;
      [nt.exchange, nt.queue, nt.rawBinding] == items + seq(3 - |items|, _ => None)
  {
  }

  /** A tuple of four or more names cannot be unpacked. */
  lemma TupleTooLongFails(items: seq<Name>, queue: NameArg, binding: Name)
    requires |items| > 3
    ensures MakeNameTrio(Tuple(items), queue, binding) == None
    ensures MakeNameTrio(Plain(None), Tuple(items), binding) == None
  {
  }

  /** For plain arguments the binding is the given one when truthy, and the queue name
      otherwise (None or "" both fall back). */
  lemma PlainBindingDefaultsToQueue(exchange: Name, queue: Name, binding: Name)
    ensures var nt := MakeNameTrio(Plain(exchange), Plain(queue), binding).value;
      && nt.exchange == exchange && nt.queue == queue
      && Binding(nt) == (if Truthy(binding) then binding else queue)
  {
  }
}
