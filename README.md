# Topic routing and NTP timestamps, verified

This project is a Dafny model of two parts of the pyon/ION code base.

**Topic routing in `pyon/net/transport.py`.**
- `TopicTrie` stores the binding keys of subscriptions, split at `.`, in a trie. It answers
  which stored patterns match a routing key, with the wildcards `*` and `#`.
- `ZeroMQRouter` is the RabbitMQ-like routing device of the zeromq transport. It keeps one
  trie per exchange, a message list per queue, the (exchange, binding) pairs of each queue,
  and the unacknowledged deliveries.
- `LocalBroker` is the in-process broker: exchange declaration, and delivery to the binds
  whose key equals the routing key.
- `NameTrio` holds an (exchange, queue, binding) triple, where the binding defaults to the
  queue.

**NTP timestamps in `src/ion/util/ntp_time.py`.**
- `NTP4Time` packs an instant into the 64-bit NTP timestamp and the 128-bit NTP date
  formats of section 6 of RFC 5905.
- It serialises those bytes as hex strings and parses them back.
- It also provides a sortable integer, the comparison operators and `htonstr`.

Python objects that are updated in place become Dafny classes:
- a `TopicTrie` with its node arena;
- a `ZeroMQRouter` with its dictionaries;
- a `LocalBroker`.

Loops become methods proved against specification functions. Python `assert` failures and
exceptions become an error result (`ok == false` or `None`), and the state is then left as
the source leaves it.

Matching semantics:
- `KeyMatches` states the matching rule independently of the trie.
- A literal token matches an equal token.
- `*` matches exactly one token.
- `#` matches one or more tokens, never zero. This is as the code behaves, and unlike AMQP
  0-9-1.
- The trie's `get_all_matches` is proved to return exactly the patterns stored under a
  binding key that matches the topic.

The router invariant (`ZeroMQRouter.Valid`) says that a queue stored in an exchange's trie
is a declared queue and has a matching entry in `_bindings_by_queue`. From this it follows
that the `assert q in self._queues` of `_route` never fails.

Instants are abstracted to integers:
- whole seconds since 1900-01-01;
- a 64-bit binary fraction.

The 32-bit fields wrap as `np.uint32` makes them wrap.

Modules, one per file:
- `Util` (`util.dfy`): option type, `split`/`join` on a separator, `list.remove`, and
  decimal integers.
- `TopicRouting` (`topic_trie.dfy`): the trie.
- `ZeroMQ` (`zeromq_router.dfy`): the router and the consumer/delivery tags.
- `LocalBrokerModel` (`local_broker.dfy`): the local broker.
- `Names` (`name_trio.dfy`): `NameTrio`.
- `NtpTime` (`ntp_time.dfy`): `NTP4Time`.

## Model

| member | source | states |
|---|---|---|
| TopicRouting.TopicTrie.constructor | pyon/net/transport.py:439-443 | a new trie holds no pattern under any key |
| TopicRouting.TopicTrie.GetOrCreateChild | pyon/net/transport.py:387-399 | returns the existing child for the token, or appends a new empty one; the pattern lists of every key are unchanged |
| TopicRouting.TopicTrie.Descend | pyon/net/transport.py:451-456 | the node reached by walking (and creating) the tokens is the node of exactly that key; no pattern list changes |
| TopicRouting.TopicTrie.AddTopicTree | pyon/net/transport.py:445-459 | the list under the split key gains the pattern at its end unless already present (so a pattern is stored once); every other key's list is unchanged |
| TopicRouting.TopicTrie.RemoveTopicTree | pyon/net/transport.py:461-475 | the list under the split key loses the first occurrence of the pattern and no longer holds it; other keys' lists are unchanged; an absent pattern changes no list |
| TopicRouting.TopicTrie.SetPatterns | pyon/net/transport.py:458-459 | replacing one node's list changes the patterns of that node's key only |
| TopicRouting.TopicTrie.NodeMatches | pyon/net/transport.py:401-437 | the recursive search with the `#` loop over suffixes returns the set defined by `MatchesFrom` |
| TopicRouting.TopicTrie.GetAllMatches | pyon/net/transport.py:477-485 | a pattern is returned iff it is stored under some binding key that matches the split topic |
| TopicRouting.MatchesSound | pyon/net/transport.py:401-437 | every pattern the search returns is stored under a key matching the topic (the key is returned as witness) |
| TopicRouting.MatchesComplete | pyon/net/transport.py:401-437 | every pattern stored under a key matching the topic is returned by the search |
| TopicRouting.HashMatchesMember | pyon/net/transport.py:427-435 | the `#` loop collects exactly the matches of the suffixes starting at positions `i..` |
| TopicRouting.PatternsFromStep | pyon/net/transport.py:418-419 | descending one literal child moves the key lookup one token down |
| TopicRouting.StoredPatternMatches | pyon/net/transport.py:409-419 | a pattern stored under a topic is among that topic's matches |
| TopicRouting.KeyMatchesItself | pyon/net/transport.py:417-435 | every binding key matches itself as a topic |
| TopicRouting.LiteralKeyMatchesOnlyItself | pyon/net/transport.py:417-419 | a wildcard-free key matches exactly the equal topic |
| TopicRouting.StarMatchesOneToken | pyon/net/transport.py:421-423 | `*` followed by a rest matches iff the topic has a first token and the rest matches what follows |
| TopicRouting.TrailingHashNeedsAToken | pyon/net/transport.py:409-411 | `k.#` never matches `k`: `#` needs at least one token |
| TopicRouting.MatchLength | pyon/net/transport.py:409-435 | a matching topic is at least as long as the key, and exactly as long when the key has no `#` |
| TopicRouting.AddThenMatch | pyon/net/transport.py:445-485 | adding a pattern twice leaves the list as one add does, and the pattern is then among the matches of its topic string |
| TopicRouting.Reach | pyon/net/transport.py:393-394 | a lookup path ends at a node index inside the arena |
| TopicRouting.ReachAppend | pyon/net/transport.py:455-456 | looking up `key + [t]` is looking up `key`, then child `t` |
| TopicRouting.ReachPath | pyon/net/transport.py:387-399 | the node reached by a key carries that key as its path, so distinct keys reach distinct nodes |
| TopicRouting.SameShapeReach | pyon/net/transport.py:458-459 | changing pattern lists does not change where keys lead |
| TopicRouting.NewLeafKeepsPatterns | pyon/net/transport.py:396-399 | adding an empty child changes no key's pattern list |
| TopicRouting.ReachGrows | pyon/net/transport.py:396-399 | keys that resolved before a new child is added resolve to the same nodes |
| ZeroMQ.ZeroMQRouter.constructor | pyon/net/transport.py:507-529 | the router starts with no exchanges, queues, bindings or unacknowledged deliveries |
| ZeroMQ.ZeroMQRouter.DeclareExchange | pyon/net/transport.py:577-580 | a new exchange gets a fresh empty trie; redeclaring changes nothing; the invariant is kept |
| ZeroMQ.ZeroMQRouter.DeleteExchange | pyon/net/transport.py:582-585 | the exchange and its trie are forgotten if present; nothing else changes |
| ZeroMQ.ZeroMQRouter.DeclareQueue | pyon/net/transport.py:587-601 | a named queue is created empty unless it exists and its name returned; with no name a fresh `q-` name not yet in use is chosen |
| ZeroMQ.ZeroMQRouter.FreshQueueName | pyon/net/transport.py:590-596 | the proposed name starts with `q-` and is not a declared queue |
| ZeroMQ.ZeroMQRouter.DeleteQueue | pyon/net/transport.py:603-611 | a declared queue is forgotten and disappears from every exchange's trie, and no other queue's membership changes; its binding list is left in place; an undeclared name changes nothing |
| ZeroMQ.ZeroMQRouter.RemoveFromTries | pyon/net/transport.py:608-611 | the loop over the queue's bindings removes the queue from each still-declared exchange's trie under each bound key, and from nowhere else |
| ZeroMQ.ZeroMQRouter.RemoveFromTrie | pyon/net/transport.py:611 | one trie loses the queue under one key; every other trie and key is unchanged |
| ZeroMQ.ZeroMQRouter.AddToTrie | pyon/net/transport.py:618 | one trie gains the queue under one key; every other trie and key is unchanged |
| ZeroMQ.ZeroMQRouter.Bind | pyon/net/transport.py:613-619 | succeeds iff exchange and queue are declared; then the queue is stored under the binding key and the pair appended to its bindings; otherwise nothing changes |
| ZeroMQ.ZeroMQRouter.Unbind | pyon/net/transport.py:621-631 | succeeds iff exchange and queue are declared; then the queue leaves the trie under the binding key and only the first equal (exchange, binding) entry is popped |
| ZeroMQ.ZeroMQRouter.PopBinding | pyon/net/transport.py:626-631 | the search loop pops exactly the first (exchange, binding) entry of the queue's list, if there is one, and the invariant survives |
| ZeroMQ.ZeroMQRouter.Route | pyon/net/transport.py:560-575 | fails iff the exchange is undeclared; otherwise the message built from exchange, routing key, body and properties is appended to exactly the queues stored under a key matching the routing key, every such queue being declared |
| ZeroMQ.ZeroMQRouter.AppendToAll | pyon/net/transport.py:571-575 | the delivery loop appends the message once to each matched queue and leaves the others alone |
| ZeroMQ.ZeroMQRouter.RecordDelivery | pyon/net/transport.py:689-694 | the delivery is filed as unacknowledged under `ctag-cnt` |
| ZeroMQ.ZeroMQRouter.Ack | pyon/net/transport.py:715-719 | succeeds iff the tag is unacknowledged, and removes exactly that entry |
| ZeroMQ.ZeroMQRouter.Reject | pyon/net/transport.py:721-725 | succeeds iff the tag is unacknowledged, returns that entry and removes exactly it |
| ZeroMQ.BindThenRoute | pyon/net/transport.py:560-619 | after binding a queue, a message routed with the binding key as routing key lands at the tail of that queue, carrying the exchange, that key, the body and the properties |
| ZeroMQ.GenerateCtag | pyon/net/transport.py:701-702 | consumer tags are `zctag-` followed by the id |
| ZeroMQ.GenerateDtag | pyon/net/transport.py:707-713 | a delivery tag is the consumer tag, `-`, then the count |
| ZeroMQ.ReturnCtag | pyon/net/transport.py:704-705 | a tag with no `-` is parsed whole |
| ZeroMQ.ReturnCtagAfterLastDash | pyon/net/transport.py:704-705 | the id is the integer written after the last `-`, whatever comes before it |
| ZeroMQ.ReturnCtagRoundTrip | pyon/net/transport.py:701-705 | the integer after the last `-` of a generated consumer tag is the id it was made from |
| ZeroMQ.DtagsUnique | pyon/net/transport.py:707-713 | two delivery tags of generated consumer tags are equal iff consumer id and count are |
| ZeroMQ.DtagParts | pyon/net/transport.py:701-713 | a delivery tag of a generated consumer tag splits at `-` into `zctag`, the decimal id and the decimal count |
| ZeroMQ.CtagParts | pyon/net/transport.py:701-705 | a generated consumer tag splits at `-` into `zctag` and the decimal id |
| LocalBrokerModel.LocalBroker.constructor | pyon/net/transport.py:298-304 | the broker starts without exchanges or binds |
| LocalBrokerModel.LocalBroker.DeclareExchange | pyon/net/transport.py:325-339 | a first declaration must have type `topic` and records all four fields; a redeclaration succeeds iff all parameters equal the record, and changes nothing |
| LocalBrokerModel.DeclareTwice | pyon/net/transport.py:325-339 | declaring the same topic exchange twice gives the same answer twice and records it once |
| LocalBrokerModel.LocalBroker.Incoming | pyon/net/transport.py:306-323 | the calls made are the binds of the exchange whose key equals the routing key, in list order; the message is always accepted |
| LocalBrokerModel.MatchingBinds | pyon/net/transport.py:308-312 | a bind is called iff it is registered with that exchange and exactly that key, and no more binds are called than there are |
| Names.FromTuple | pyon/net/transport.py:271-274 | a tuple of at most three names is padded with None to the three fields; a longer one fails to unpack |
| Names.MakeNameTrio | pyon/net/transport.py:260-278 | a tuple exchange, else a tuple queue, supplies all three fields (padded with None) and fails past three items; otherwise the three arguments are stored as given |
| Names.Binding | pyon/net/transport.py:288-290 | `_binding or _queue` is one of the two, and is truthy iff either of them is |
| Names.PairBindsByQueue | pyon/net/transport.py:271-290 | an (exchange, queue) pair builds a trio whose binding is the queue |
| Names.TupleArgumentPadded | pyon/net/transport.py:271-274 | a tuple argument alone determines all three fields, padded with None |
| Names.TupleTooLongFails | pyon/net/transport.py:271-274 | a tuple of four or more names makes construction fail |
| Names.PlainBindingDefaultsToQueue | pyon/net/transport.py:275-290 | with plain arguments the fields are stored as given and the binding falls back to the queue when not truthy |
| NtpTime.ToBigEndian | src/ion/util/ntp_time.py:25-26 | struct's `!I`/`!Q` packing yields exactly `width` bytes |
| NtpTime.FromBigEndian | src/ion/util/ntp_time.py:25-26 | struct's unpacking of `n` bytes yields a value below 256^n |
| NtpTime.FromToBigEndian | src/ion/util/ntp_time.py:25-26 | unpacking a packed field gives the value back |
| NtpTime.ToFromBigEndian | src/ion/util/ntp_time.py:25-26 | packing an unpacked field gives the bytes back |
| NtpTime.FromBigEndianAppend | src/ion/util/ntp_time.py:25-26 | a big-endian value of a concatenation is the high part shifted over the low part |
| NtpTime.Pow256Values | src/ion/util/ntp_time.py:25-26 | 4-byte and 8-byte fields hold below 2^32 and 2^64 |
| NtpTime.Seconds32 | src/ion/util/ntp_time.py:78-81 | the `seconds` field lies below 2^32 |
| NtpTime.Fraction32 | src/ion/util/ntp_time.py:117 | the 32-bit fraction lies below 2^32 |
| NtpTime.ToNtp64 | src/ion/util/ntp_time.py:103-119 | the timestamp has 8 bytes |
| NtpTime.Ntp64Layout | src/ion/util/ntp_time.py:103-119 | bytes 0-3 are the big-endian seconds modulo 2^32, bytes 4-7 the big-endian 32-bit fraction |
| NtpTime.FromNtp64 | src/ion/util/ntp_time.py:121-129 | decoding succeeds iff there are exactly 8 bytes |
| NtpTime.Ntp64RoundTrip | src/ion/util/ntp_time.py:103-129 | decoding the timestamp gives the instant with seconds modulo 2^32 and fraction truncated to 32 bits |
| NtpTime.Ntp64BytesRoundTrip | src/ion/util/ntp_time.py:103-129 | every 8-byte value is the encoding of what it decodes to |
| NtpTime.Era | src/ion/util/ntp_time.py:73-76 | the era lies below 2^32 and era * 2^32 + offset gives the seconds back |
| NtpTime.ToNtpDate | src/ion/util/ntp_time.py:131-151 | packing always gives 16 bytes, as every representable date has an era that fits 32 bits |
| NtpTime.NtpDateLayout | src/ion/util/ntp_time.py:131-151 | the 16 bytes are era = seconds div 2^32, offset = seconds mod 2^32, and the 64-bit fraction, big-endian |
| NtpTime.FromNtpDate | src/ion/util/ntp_time.py:153-161 | decoding succeeds iff there are exactly 16 bytes and era * 2^32 + offset is no later than the last second of year 9999 |
| NtpTime.NtpDateBeyondYear9999 | src/ion/util/ntp_time.py:83-86 | a date of era 60 is rejected, as `datetime` cannot hold it |
| NtpTime.NtpDateRoundTrip | src/ion/util/ntp_time.py:131-161 | `era * 2^32 + offset` inverts the split: decoding the date gives the instant back exactly |
| NtpTime.HexByte | src/ion/util/ntp_time.py:171 | `'%02x'` gives two characters |
| NtpTime.HexEncode | src/ion/util/ntp_time.py:169-172 | the encoding has two characters per byte |
| NtpTime.HexEncodeAt | src/ion/util/ntp_time.py:171 | characters `2k` and `2k+1` are the high and low digits of byte `k` |
| NtpTime.HexEncodeIsLowerHex | src/ion/util/ntp_time.py:169-172 | the encoding consists of lowercase hex digits only |
| NtpTime.ConcatHexBytes | src/ion/util/ntp_time.py:172 | joining the per-byte digit pairs is the encoding |
| NtpTime.HexValue | src/ion/util/ntp_time.py:206 | a hex digit of either case has a value below 16 |
| NtpTime.HexValueOfDigit | src/ion/util/ntp_time.py:171-206 | parsing the digit written for a value gives the value |
| NtpTime.HexPairOfByte | src/ion/util/ntp_time.py:171-206 | the two digits `'%02x'` writes for a byte parse back to that byte |
| NtpTime.HexPairValue | src/ion/util/ntp_time.py:206 | two hex digits parse to high * 16 + low |
| NtpTime.HexDecode | src/ion/util/ntp_time.py:204-207 | a successful decode has one byte per two characters |
| NtpTime.HexRoundTrip | src/ion/util/ntp_time.py:163-222 | decoding the hex encoding of any bytes gives the bytes back |
| NtpTime.HexSerialise | src/ion/util/ntp_time.py:169-172 | the loop filling `arr` and the join produce the hex encoding |
| NtpTime.HexDeserialise | src/ion/util/ntp_time.py:204-207 | the loop filling `arr` decodes every pair, or fails when one pair does not parse |
| NtpTime.ToString | src/ion/util/ntp_time.py:163-173 | 16 lowercase hex digits encoding `to_ntp64` |
| NtpTime.ToExtendedString | src/ion/util/ntp_time.py:175-185 | 32 hex digits encoding `to_ntp_date` |
| NtpTime.FromString | src/ion/util/ntp_time.py:198-209 | fails unless the length is 16; otherwise decodes the pairs and then the timestamp |
| NtpTime.FromExtendedString | src/ion/util/ntp_time.py:211-222 | fails unless the length is 32; otherwise decodes the pairs and then the date |
| NtpTime.StringRoundTrip | src/ion/util/ntp_time.py:163-209 | decoding `to_string`'s output yields `to_ntp64`'s bytes and the instant truncated to the timestamp |
| NtpTime.ExtendedStringRoundTrip | src/ion/util/ntp_time.py:175-222 | decoding `to_extended_string`'s output yields `to_ntp_date`'s bytes and the instant exactly |
| NtpTime.ToSortable | src/ion/util/ntp_time.py:277-283 | the sortable value lies in [0, 2^64) |
| NtpTime.SortableIsTimestampValue | src/ion/util/ntp_time.py:277-283 | the sortable value is the 64-bit timestamp read as one big-endian integer |
| NtpTime.SortableOrder | src/ion/util/ntp_time.py:277-283 | the sortable value orders instants as (seconds field, fraction field) lexicographically, both directions |
| NtpTime.SortableAgreesWithOrder | src/ion/util/ntp_time.py:265-283 | within the first era a smaller sortable value means an earlier instant, and an earlier instant never has a larger value |
| NtpTime.SortableWrapsAtEraBoundary | src/ion/util/ntp_time.py:277-283 | the last second of era 0 is earlier than the first of era 1 yet has the larger sortable value |
| NtpTime.SortKey | src/ion/util/ntp_time.py:277-283 | the unwrapped key equals `to_sortable` within the first era |
| NtpTime.SortKeyAgreesWithOrder | src/ion/util/ntp_time.py:265-283 | for all instants a smaller unwrapped key means earlier, and earlier never means a larger key |
| NtpTime.Eq | src/ion/util/ntp_time.py:259-260 | `==` holds exactly for an `NTP4Time` holding the same instant |
| NtpTime.Ne | src/ion/util/ntp_time.py:262-263 | `!=` is the negation of `==` |
| NtpTime.Lt | src/ion/util/ntp_time.py:271-272 | `<` holds only against an `NTP4Time` with at least as many seconds and a different instant |
| NtpTime.Gt | src/ion/util/ntp_time.py:265-266 | `a > o` holds exactly when `o` is an `NTP4Time` and `o < a` |
| NtpTime.Le | src/ion/util/ntp_time.py:274-275 | `<=` is `<` or `==` |
| NtpTime.Ge | src/ion/util/ntp_time.py:268-269 | `>=` is `>` or `==` |
| NtpTime.ComparisonsWithOther | src/ion/util/ntp_time.py:259-275 | against a non-`NTP4Time` only `!=` holds; `==` and `!=` are always complementary |
| NtpTime.ComparisonsTotal | src/ion/util/ntp_time.py:259-275 | between instants `<`, `==`, `>` are exclusive and exhaustive, and `<=`, `>=` are their reflexive closures |
| NtpTime.ReverseGroups | src/ion/util/ntp_time.py:237-240 | reversing 2-character groups keeps the length |
| NtpTime.ReverseGroupsAt | src/ion/util/ntp_time.py:238-239 | output slots `2i`, `2i+1` hold input characters `l-2i-2`, `l-2i-1` |
| NtpTime.ReverseGroupsAppend | src/ion/util/ntp_time.py:237-240 | group reversal turns a concatenation around |
| NtpTime.ReverseGroupsInvolution | src/ion/util/ntp_time.py:231-241 | applying `htonstr`'s reversal twice gives back the string |
| NtpTime.HtonStr | src/ion/util/ntp_time.py:231-241 | on a little-endian host an even-length string gets its 2-character groups reversed and an odd-length one fails the join; otherwise the string is returned unchanged |
| Util.Split | pyon/net/transport.py:451 | `str.split(".")` yields at least one part and no part holds the separator |
| Util.JoinSplit | pyon/net/transport.py:451 | joining the parts of a split gives the string back |
| Util.SplitJoin | pyon/net/transport.py:704-705 | splitting a join of separator-free parts gives the parts back |
| Util.SplitPrefix | pyon/net/transport.py:704-705 | a separator-free prefix extends the first part of the split |
| Util.SplitNoSep | pyon/net/transport.py:705 | a string without the separator splits into itself alone |
| Util.SplitLastPart | pyon/net/transport.py:705 | the last part of a split is the text after the last separator |
| Util.RemoveFirst | pyon/net/transport.py:475 | `list.remove` shortens the list by one when the element is present and leaves it alone otherwise |
| Util.RemoveFirstKeepsOthers | pyon/net/transport.py:475 | removing one element keeps every other element's membership |
| Util.RemoveFirstNoDup | pyon/net/transport.py:474-475 | on a duplicate-free list the element is gone afterwards and the list stays duplicate-free |
| Util.RemoveFirstAt | pyon/net/transport.py:626-630 | popping the index of the first equal entry is removing the first occurrence |
| Util.NatToString | pyon/net/transport.py:702 | `%s` of an integer is a non-empty string of digits |
| Util.ParseNat | pyon/net/transport.py:705 | parsing succeeds iff the string is a non-empty run of digits |
| Util.ParseNatToString | pyon/net/transport.py:702-705 | `int` of the decimal form of `n` is `n` |

## Left out

- `AMQPTransport`, `LocalTransport`, `ZeroMQTransport` and `BaseTransport`: these wrap pika channels, zmq sockets and msgpack, which are outside this model.
- `ZeroMQRouter.start`, `stop`, `_run_gl_msgs`, `start_consume`, `stop_consume`, `transport_close`: they do socket I/O and spawn, join and kill greenlets. The bookkeeping step of `_run_consumer` is modelled by `RecordDelivery`. The consumer loop, the callback invocation and the exception swallowing are not.
- All `RLock` use: the operations are modelled as running one at a time.
- `IDPool`: consumer ids are parameters, and `ReturnCtag` gives the id that would go back to the pool.
- ZeroMQ.ZeroMQRouter.DeclareQueue: the uuid-based name is replaced by a deterministic name that starts with `q-` and is not yet taken. The contract promises only these two properties.
- ZeroMQ.ZeroMQRouter.Reject: only `requeue=False` is modelled. The requeue path calls `append` on a gevent queue, which is external code and marked experimental.
- Gevent queues are message sequences: `put` appends. `Route` treats the set from `get_all_matches` as unordered, so the order in which different queues receive a message is not modelled.
- TopicRouting.TopicTrie.NodeMatches: the model returns a set. The recursive Python method returns a list that may repeat a pattern, and only `get_all_matches` turns it into a set.
- Trie nodes are an index arena rather than linked `Node` objects, so aliasing of nodes is not modelled. The empty nodes that `remove_topic_tree` creates are modelled; node removal is not, as the source does not do it.
- LocalBrokerModel.LocalBroker.Incoming: callbacks are identified by a number and returned in call order rather than invoked. Their exceptions are not modelled.
- `LocalBroker._queues` is never used by the source and is not modelled. Nothing in the shown code appends to `_binds`, so the model has no operation for that either.
- Names.MakeNameTrio: arguments are None, strings or tuples of those. Other Python values (numbers, lists) are not modelled.
- Util.ParseNat: `int()` also accepts signs and surrounding whitespace. The model accepts only digit strings, which is all `_generate_ctag` produces.
- `NTP4Time.__init__`, `utcnow`, `to_unix`, the `seconds` setter, `useconds`/`microseconds`, `date`, `__str__`/`__repr__`, and the year/month/day properties: these are datetime and floating-point conversions, which are outside this model.
- `to_np_value`, `np_from_string`, `htonl`, `htonll`: numpy helpers, outside this model.
- NtpTime.FromNtp64: the model returns the instant as integers. The source converts through a float of seconds and rounds; that rounding is not modelled.
- NtpTime.FromNtpDate: the same float conversion and rounding is left out here. `datetime` ends at 9999-12-31 23:59:59.999999, so the seconds setter raises `OverflowError` past it. The model treats every date whose whole seconds exceed `MAX_SECONDS` (the last second of year 9999) as a failure. A date inside that last second whose fraction rounds up to the next microsecond also overflows in the source; that rounding edge is not modelled.
- NtpTime.ToNtp64: the fraction is taken as exact integers. The source computes it from floating-point `total_seconds()`. Instants before 1900 (negative seconds) are not modelled, and instants are bounded by the last second of year 9999 as `datetime` is.
- NtpTime.HexPairValue: Python `int(x, 16)` leniency is modelled for two-character slices (whitespace, `+`, `-0`). Characters beyond ASCII are treated as non-digits.
- The source's `assert` statements are modelled as always active. Running Python with `-O` would remove them.

Where the code and its description differ, the model follows the code:
- `#` needs at least one token, unlike AMQP 0-9-1.
- `LocalBroker` compares binding keys by equality only.
- `delete_queue` leaves the queue's entry in `_bindings_by_queue` in place. If the same name is declared again, the stale pairs are still there.

## Findings

| source | as written | input that shows it | evidently intended | confidence | as-written member | corrected member |
|---|---|---|---|---|---|---|
| src/ion/util/ntp_time.py:277-283 | `to_sortable` builds its value from the seconds wrapped to 32 bits (`np.uint32`), so it breaks the sort order it promises once seconds reach 2^32 (February 2036) | seconds 2^32 - 1 and 2^32, fraction 0: the later instant gets value 0, the earlier 2^64 - 2^32 | the unwrapped seconds since 1900 times 2^32 plus the fraction, which orders all instants | medium, not executed (depends on `np.uint32` wrapping an out-of-range float, as the source's own comment at line 148 expects) | NtpTime.SortableWrapsAtEraBoundary | NtpTime.SortKeyAgreesWithOrder |
