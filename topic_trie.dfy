/** The topic trie of the zeromq router: subscription binding keys stored token by
    token, with the wildcards `*` (exactly one token) and `#` (one or more tokens). */
module TopicRouting {
  import opened Util

  type Token = string

  /** What a terminal node stores: a reference to a bind. The router stores queue names. */
  type Pattern = string

  /** One trie node. Nodes live in the trie's arena and `children` maps a token to the
      arena index of the child node; the root's token is None. */
  datatype TrieNode = TrieNode(token: Option<Token>, patterns: seq<Pattern>, children: map<Token, nat>)

  /** Binding-key semantics as the matcher implements them. A literal token matches an equal
      token, `*` matches exactly one token and `#` matches one or more tokens (never zero,
      unlike AMQP 0-9-1). */
  predicate KeyMatches(key: seq<Token>, topic: seq<Token>)
    decreases |key|
  {
    if key == [] then topic == []
    else if topic == [] then false
    else if key[0] == "#" then exists j :: 1 <= j <= |topic| && KeyMatches(key[1..], topic[j..])
    else (key[0] == "*" || key[0] == topic[0]) && KeyMatches(key[1..], topic[1..])
  }

  predicate IsWildcard(t: Token)
  {
    t == "*" || t == "#"
  }

  /** Every child index points into the arena. */
  predicate ChildrenInRange(nodes: seq<TrieNode>)
  {
    forall n, t :: 0 <= n < |nodes| && t in nodes[n].children ==> nodes[n].children[t] < |nodes|
  }

  /** The arena is a tree rooted at index 0: `paths[m]` is the key that leads from the
      root to node `m`, and every edge extends its parent's key by its token. */
  ghost predicate WellFormed(nodes: seq<TrieNode>, paths: seq<seq<Token>>)
  {
    && |nodes| >= 1 && |paths| == |nodes|
    && nodes[0].token == None && paths[0] == []
    && ChildrenInRange(nodes)
    && forall n, t :: 0 <= n < |nodes| && t in nodes[n].children ==>
         var c := nodes[n].children[t];
         nodes[c].token == Some(t) && paths[c] == paths[n] + [t]
  }

  /** The node reached from `n` by following `key` token by token, if every step exists. */
  function Reach(nodes: seq<TrieNode>, n: nat, key: seq<Token>): (r: Option<nat>)
    requires ChildrenInRange(nodes) && n < |nodes|
    ensures r.Some? ==> r.value < |nodes|
    decreases |key|
  {
    if key == [] then Some(n)
    else if key[0] in nodes[n].children then Reach(nodes, nodes[n].children[key[0]], key[1..])
    else None
  }

  /** The patterns stored under `key` below node `n`; empty when no node has that key. */
  function PatternsFrom(nodes: seq<TrieNode>, n: nat, key: seq<Token>): seq<Pattern>
    requires ChildrenInRange(nodes) && n < |nodes|
  {
    match Reach(nodes, n, key)
    case Some(m) => nodes[m].patterns
    case None => []
  }

  function PatternSet(s: seq<Pattern>): set<Pattern>
  {
    set p | p in s
  }

  /** The matcher's recursion: depth-first descent pruned by token, as `Node.get_all_matches`
      walks it, with results collected as a set (the trie returns a set). */
  function MatchesFrom(nodes: seq<TrieNode>, n: nat, topics: seq<Token>): set<Pattern>
    requires ChildrenInRange(nodes) && n < |nodes|
    decreases |topics|, 0, 0
  {
    if topics == [] then PatternSet(nodes[n].patterns)
    else
      var ch := nodes[n].children;
      var cur := topics[0];
      var rem := topics[1..];
      (if cur in ch then MatchesFrom(nodes, ch[cur], rem) else {})
      + (if "*" in ch then MatchesFrom(nodes, ch["*"], rem) else {})
      + (if "#" in ch then HashMatches(nodes, ch["#"], rem, 0) + PatternSet(nodes[ch["#"]].patterns) else {})
  }

  /** Matches of the `#` child `h` against every suffix `rem[j..]` with `i <= j < |rem|`. */
  function HashMatches(nodes: seq<TrieNode>, h: nat, rem: seq<Token>, i: nat): set<Pattern>
    requires ChildrenInRange(nodes) && h < |nodes| && i <= |rem|
    decreases |rem|, 1, |rem| - i
  {
    if i == |rem| then {} else MatchesFrom(nodes, h, rem[i..]) + HashMatches(nodes, h, rem, i + 1)
  }

  lemma {:induction false} HashMatchesMember(nodes: seq<TrieNode>, h: nat, rem: seq<Token>, i: nat, p: Pattern)
    requires ChildrenInRange(nodes) && h < |nodes| && i <= |rem|
    ensures p in HashMatches(nodes, h, rem, i) <==> exists j :: i <= j < |rem| && p in MatchesFrom(nodes, h, rem[j..])
    decreases |rem| - i
  {
    if i < |rem| {
      HashMatchesMember(nodes, h, rem, i + 1, p);
    }
  }

  lemma PatternsFromStep(nodes: seq<TrieNode>, n: nat, t: Token, key: seq<Token>)
    requires ChildrenInRange(nodes) && n < |nodes|
    ensures PatternsFrom(nodes, n, [t] + key) ==
      if t in nodes[n].children then PatternsFrom(nodes, nodes[n].children[t], key) else []
  {
    assert ([t] + key)[0] == t && ([t] + key)[1..] == key;
  }

  /** Soundness of the matcher: every pattern it returns is stored under some binding
      key that matches the topic. The key is returned as a witness. */
  lemma {:induction false} MatchesSound(nodes: seq<TrieNode>, n: nat, topics: seq<Token>, p: Pattern)
      returns (key: seq<Token>)
    requires ChildrenInRange(nodes) && n < |nodes|
    requires p in MatchesFrom(nodes, n, topics)
    ensures KeyMatches(key, topics) && p in PatternsFrom(nodes, n, key)
    decreases |topics|
  {
    if topics == [] {
      key := [];
    } else {
      var ch := nodes[n].children;
      var cur, rem := topics[0], topics[1..];
      if cur in ch && p in MatchesFrom(nodes, ch[cur], rem) {
        var k := MatchesSound(nodes, ch[cur], rem, p);
        key := [cur] + k;
        PatternsFromStep(nodes, n, cur, k);
        assert key[1..] == k;
        if cur == "#" {
          assert topics[1..] == rem;
        }
      } else if "*" in ch && p in MatchesFrom(nodes, ch["*"], rem) {
        var k := MatchesSound(nodes, ch["*"], rem, p);
        key := ["*"] + k;
        PatternsFromStep(nodes, n, "*", k);
        assert key[1..] == k;
      } else {
        assert "#" in ch;
        var h := ch["#"];
        PatternsFromStep(nodes, n, "#", []);
        if p in PatternSet(nodes[h].patterns) {
          key := ["#"];
          assert topics[|topics|..] == [];
          assert KeyMatches(key[1..], topics[|topics|..]);
        } else {
          HashMatchesMember(nodes, h, rem, 0, p);
          var j :| 0 <= j < |rem| && p in MatchesFrom(nodes, h, rem[j..]);
          var k := MatchesSound(nodes, h, rem[j..], p);
          key := ["#"] + k;
          PatternsFromStep(nodes, n, "#", k);
          assert key[1..] == k;
          assert topics[j + 1..] == rem[j..];
          assert KeyMatches(key[1..], topics[j + 1..]);
        }
      }
    }
  }

  /** Completeness of the matcher: every pattern stored under a binding key that matches
      the topic is returned. */
  lemma {:induction false} MatchesComplete(nodes: seq<TrieNode>, n: nat, topics: seq<Token>, key: seq<Token>, p: Pattern)
    requires ChildrenInRange(nodes) && n < |nodes|
    requires KeyMatches(key, topics) && p in PatternsFrom(nodes, n, key)
    ensures p in MatchesFrom(nodes, n, topics)
    decreases |topics|
  {
    if key == [] {
      assert topics == [];
    } else {
      var ch := nodes[n].children;
      var k0, k := key[0], key[1..];
      assert key == [k0] + k;
      PatternsFromStep(nodes, n, k0, k);
      assert k0 in ch;
      var c := ch[k0];
      var rem := topics[1..];
      if k0 == "#" {
        var j :| 1 <= j <= |topics| && KeyMatches(k, topics[j..]);
        if j == |topics| {
          assert k == [];
          assert p in PatternSet(nodes[c].patterns);
        } else {
          assert topics[j..] == rem[j - 1..];
          MatchesComplete(nodes, c, rem[j - 1..], k, p);
          HashMatchesMember(nodes, c, rem, 0, p);
        }
      } else {
        MatchesComplete(nodes, c, rem, k, p);
      }
    }
  }

  /** Each segment of a key consumes at least one token, and a key without `#` consumes
      exactly one token per segment: `#` never matches zero tokens. */
  lemma {:induction false} MatchLength(key: seq<Token>, topic: seq<Token>)
    requires KeyMatches(key, topic)
    ensures |topic| >= |key|
    ensures "#" !in key ==> |topic| == |key|
    decreases |key|
  {
    if key != [] {
      if key[0] == "#" {
        var j :| 1 <= j <= |topic| && KeyMatches(key[1..], topic[j..]);
        MatchLength(key[1..], topic[j..]);
      } else {
        MatchLength(key[1..], topic[1..]);
        assert "#" !in key ==> "#" !in key[1..];
      }
    }
  }

  /** Every key matches itself, wildcards included (a topic token `*` or `#` meets the
      literal child first). */
  lemma {:induction false} KeyMatchesItself(key: seq<Token>)
    ensures KeyMatches(key, key)
    decreases |key|
  {
    if key != [] {
      KeyMatchesItself(key[1..]);
      if key[0] == "#" {
        assert KeyMatches(key[1..], key[1..]);
      }
    }
  }

  /** A key without wildcards matches exactly the topic equal to it. */
  lemma {:induction false} LiteralKeyMatchesOnlyItself(key: seq<Token>, topic: seq<Token>)
    requires forall i :: 0 <= i < |key| ==> !IsWildcard(key[i])
    ensures KeyMatches(key, topic) <==> topic == key
    decreases |key|
  {
    if key == [] {
    } else if topic == [] {
    } else {
      assert !IsWildcard(key[0]);
      LiteralKeyMatchesOnlyItself(key[1..], topic[1..]);
      assert topic == key <==> topic[0] == key[0] && topic[1..] == key[1..];
    }
  }

  /** `*` stands for exactly one token. */
  lemma {:induction false} StarMatchesOneToken(rest: seq<Token>, topic: seq<Token>)
    ensures KeyMatches(["*"] + rest, topic) <==> |topic| >= 1 && KeyMatches(rest, topic[1..])
  {
    var key := ["*"] + rest;
    assert key[0] == "*" && key[1..] == rest;
  }

  /** A trailing `#` needs at least one token: `a.#` does not match `a`. */
  lemma {:induction false} TrailingHashNeedsAToken(prefix: seq<Token>)
    ensures !KeyMatches(prefix + ["#"], prefix)
  {
    if KeyMatches(prefix + ["#"], prefix) {
      MatchLength(prefix + ["#"], prefix);
    }
  }

  /** The topic trie: an arena of nodes with the root at index 0. */
  class TopicTrie {
    var nodes: seq<TrieNode>
    ghost var paths: seq<seq<Token>>

    ghost predicate Valid()
      reads this
    {
      && WellFormed(nodes, paths)
      && forall n :: 0 <= n < |nodes| ==> NoDup(nodes[n].patterns)
    }

    /** The patterns stored at the node with binding key `key`, empty when there is none. */
    ghost function PatternsAt(key: seq<Token>): seq<Pattern>
      reads this
      requires Valid()
    {
      PatternsFrom(nodes, 0, key)
    }

    /** A trie holding only a dummy root. */
    constructor ()
      ensures Valid()
      ensures forall key :: PatternsAt(key) == []
    {
      nodes := [TrieNode(None, [], map[])];
      paths := [[]];
      new;
      forall key ensures PatternsAt(key) == [] {
        if key != [] {
          assert key[0] !in nodes[0].children;
        }
      }
    }

    /** `Node.get_or_create_child`: the child of `n` for `token`, created empty when missing.
        Creating a node changes no stored pattern list. */
    method GetOrCreateChild(n: nat, token: Token) returns (c: nat)
      requires Valid() && n < |nodes|
      modifies this
      ensures Valid() && c < |nodes|
      ensures |nodes| >= old(|nodes|) && forall m :: 0 <= m < old(|nodes|) ==> paths[m] == old(paths[m])
      ensures token in nodes[n].children && nodes[n].children[token] == c
      ensures old(token in nodes[n].children) ==> nodes == old(nodes) && paths == old(paths)
      ensures old(token !in nodes[n].children) ==>
        && c == old(|nodes|)
        && nodes == old(nodes)[n := old(nodes[n]).(children := old(nodes[n].children)[token := c])]
                    + [TrieNode(Some(token), [], map[])]
      ensures forall m, key :: 0 <= m < old(|nodes|) ==> PatternsFrom(nodes, m, key) == old(PatternsFrom(nodes, m, key))
    {
      if token in nodes[n].children {
        return nodes[n].children[token];
      }
      ghost var before := nodes;
      c := |nodes|;
      var node := nodes[n];
      nodes := nodes[n := node.(children := node.children[token := c])] + [TrieNode(Some(token), [], map[])];
      paths := paths + [paths[n] + [token]];
      forall m, key | 0 <= m < |before| ensures PatternsFrom(nodes, m, key) == PatternsFrom(before, m, key) {
        NewLeafKeepsPatterns(before, nodes, n, token, m, key);
      }
    }

    /** Follows the tokens of `topics` from the root, creating missing nodes, as the loops
        of `add_topic_tree` and `remove_topic_tree` do. Returns the terminal node. */
    method Descend(topics: seq<Token>) returns (cur: nat)
      requires Valid()
      modifies this
      ensures Valid() && cur < |nodes|
      ensures paths[cur] == topics
      ensures Reach(nodes, 0, topics) == Some(cur)
      ensures forall key :: PatternsAt(key) == old(PatternsAt(key))
    {
      cur := 0;
      var i := 0;
      while i < |topics|
        invariant Valid()
        invariant 0 <= i <= |topics| && cur < |nodes|
        invariant Reach(nodes, 0, topics[..i]) == Some(cur)
        invariant forall key :: PatternsAt(key) == old(PatternsAt(key))
      {
        ghost var before := nodes;
        ReachAppend(nodes, 0, topics[..i], topics[i]);
        cur := GetOrCreateChild(cur, topics[i]);
        ReachGrows(before, nodes, 0, topics[..i]);
        assert topics[..i + 1] == topics[..i] + [topics[i]];
        ReachAppend(nodes, 0, topics[..i], topics[i]);
        i := i + 1;
      }
      assert topics[..i] == topics;
      ReachPath(nodes, paths, 0, topics);
    }

    /** `add_topic_tree`: store `pattern` at the node for the binding key `topicTree`,
        at most once. No other key's pattern list changes. */
    method AddTopicTree(topicTree: string, pattern: Pattern)
      requires Valid()
      modifies this
      ensures Valid()
      ensures var key := Split(topicTree, '.');
        PatternsAt(key) == if pattern in old(PatternsAt(key)) then old(PatternsAt(key)) else old(PatternsAt(key)) + [pattern]
      ensures forall key :: key != Split(topicTree, '.') ==> PatternsAt(key) == old(PatternsAt(key))
    {
      var topics := Split(topicTree, '.');
      var cur := Descend(topics);
      if pattern !in nodes[cur].patterns {
        var node := nodes[cur];
        SetPatterns(cur, node.patterns + [pattern]);
      }
    }

    /** `remove_topic_tree`: remove `pattern` from the node for `topicTree`. Afterwards that
        node no longer holds it and no other key's pattern list changes; when the pattern
        was absent nothing changes but the empty nodes the descent may create. */
    method RemoveTopicTree(topicTree: string, pattern: Pattern)
      requires Valid()
      modifies this
      ensures Valid()
      ensures var key := Split(topicTree, '.');
        PatternsAt(key) == RemoveFirst(old(PatternsAt(key)), pattern) && pattern !in PatternsAt(key)
      ensures forall key :: key != Split(topicTree, '.') ==> PatternsAt(key) == old(PatternsAt(key))
    {
      var topics := Split(topicTree, '.');
      var cur := Descend(topics);
      RemoveFirstNoDup(nodes[cur].patterns, pattern);
      if pattern in nodes[cur].patterns {
        var node := nodes[cur];
        SetPatterns(cur, RemoveFirst(node.patterns, pattern));
      }
    }

    /** Replaces the pattern list of node `cur`, whose key is `paths[cur]`. */
    method SetPatterns(cur: nat, ps: seq<Pattern>)
      requires Valid() && cur < |nodes| && NoDup(ps)
      requires Reach(nodes, 0, paths[cur]) == Some(cur)
      modifies this
      ensures Valid()
      ensures PatternsAt(old(paths[cur])) == ps
      ensures forall key :: key != old(paths[cur]) ==> PatternsAt(key) == old(PatternsAt(key))
    {
      ghost var before := nodes;
      ReachPath(nodes, paths, 0, paths[cur]);
      SameShapeReach(before, nodes[cur := nodes[cur].(patterns := ps)], 0, paths[cur]);
      nodes := nodes[cur := nodes[cur].(patterns := ps)];
      forall key | key != paths[cur] ensures PatternsAt(key) == old(PatternsAt(key)) {
        SameShapeReach(before, nodes, 0, key);
        ReachPath(before, paths, 0, key);
      }
    }

    /** `Node.get_all_matches`: the patterns of the nodes below `n` whose keys match `topics`. */
    method NodeMatches(n: nat, topics: seq<Token>) returns (r: set<Pattern>)
      requires Valid() && n < |nodes|
      ensures r == MatchesFrom(nodes, n, topics)
      decreases |topics|
    {
      if |topics| == 0 {
        return PatternSet(nodes[n].patterns);
      }
      var cur, rem := topics[0], topics[1..];
      var ch := nodes[n].children;
      r := {};
      if cur in ch {
        var res := NodeMatches(ch[cur], rem);
        r := r + res;
      }
      if "*" in ch {
        var res := NodeMatches(ch["*"], rem);
        r := r + res;
      }
      if "#" in ch {
        var h := ch["#"];
        var allWildChilds: set<Pattern> := {};
        var i := 0;
        while i < |rem|
          invariant 0 <= i <= |rem|
          invariant allWildChilds + HashMatches(nodes, h, rem, i) == HashMatches(nodes, h, rem, 0)
        {
          var res := NodeMatches(h, rem[i..]);
          allWildChilds := allWildChilds + res;
          i := i + 1;
        }
        r := r + allWildChilds + PatternSet(nodes[h].patterns);
      }
    }

    /** `get_all_matches`: the set of patterns stored under binding keys that match the
        topic string. */
    method GetAllMatches(topicTree: string) returns (r: set<Pattern>)
      requires Valid()
      ensures forall p :: p in r <==>
        exists key :: KeyMatches(key, Split(topicTree, '.')) && p in PatternsAt(key)
    {
      var topics := Split(topicTree, '.');
      r := NodeMatches(0, topics);
      forall p ensures p in r <==> exists key :: KeyMatches(key, topics) && p in PatternsAt(key) {
        if p in r {
          var key := MatchesSound(nodes, 0, topics, p);
        }
        if exists key :: KeyMatches(key, topics) && p in PatternsAt(key) {
          var key :| KeyMatches(key, topics) && p in PatternsAt(key);
          MatchesComplete(nodes, 0, topics, key, p);
        }
      }
    }
  }

  /** Adding a pattern twice under a topic string leaves the lists as one add does, and makes
      the pattern one of that topic string's matches. */
  method AddThenMatch(trie: TopicTrie, topicTree: string, pattern: Pattern) returns (r: set<Pattern>)
    requires trie.Valid()
    modifies trie
    ensures trie.Valid() && pattern in r
    ensures var key := Split(topicTree, '.');
      trie.PatternsAt(key) == if pattern in old(trie.PatternsAt(key)) then old(trie.PatternsAt(key)) else old(trie.PatternsAt(key)) + [pattern]
  {
    trie.AddTopicTree(topicTree, pattern);
    trie.AddTopicTree(topicTree, pattern);
    r := trie.GetAllMatches(topicTree);
    KeyMatchesItself(Split(topicTree, '.'));
  }

  /** A pattern stored under the exact topic is among that topic's matches. */
  lemma StoredPatternMatches(nodes: seq<TrieNode>, key: seq<Token>, p: Pattern)
    requires ChildrenInRange(nodes) && |nodes| >= 1
    requires p in PatternsFrom(nodes, 0, key)
    ensures p in MatchesFrom(nodes, 0, key)
  {
    KeyMatchesItself(key);
    MatchesComplete(nodes, 0, key, key, p);
  }

  /** Reaching one token further. */
  lemma {:induction false} ReachAppend(nodes: seq<TrieNode>, n: nat, key: seq<Token>, t: Token)
    requires ChildrenInRange(nodes) && n < |nodes|
    ensures Reach(nodes, n, key + [t]) ==
      match Reach(nodes, n, key)
      case Some(m) => if t in nodes[m].children then Some(nodes[m].children[t]) else None
      case None => None
    decreases |key|
  {
    if key == [] {
      assert key + [t] == [t];
      assert [t][1..] == [];
    } else {
      assert (key + [t])[0] == key[0] && (key + [t])[1..] == key[1..] + [t];
      if key[0] in nodes[n].children {
        ReachAppend(nodes, nodes[n].children[key[0]], key[1..], t);
      }
    }
  }

  /** The node reached by `key` from `n` has `n`'s path extended by `key`; so in a
      well-formed trie distinct keys lead to distinct nodes. */
  lemma {:induction false} ReachPath(nodes: seq<TrieNode>, paths: seq<seq<Token>>, n: nat, key: seq<Token>)
    requires WellFormed(nodes, paths) && n < |nodes|
    ensures Reach(nodes, n, key).Some? ==> paths[Reach(nodes, n, key).value] == paths[n] + key
    decreases |key|
  {
    if key == [] {
      assert paths[n] + key == paths[n];
    } else if key[0] in nodes[n].children {
      var c := nodes[n].children[key[0]];
      ReachPath(nodes, paths, c, key[1..]);
      assert key == [key[0]] + key[1..];
      assert paths[c] == paths[n] + [key[0]];
      assert paths[c] + key[1..] == paths[n] + key;
    }
  }

  /** Same length and same child maps everywhere. */
  ghost predicate SameShape(a: seq<TrieNode>, b: seq<TrieNode>)
  {
    |a| == |b| && forall i :: 0 <= i < |a| ==> a[i].children == b[i].children
  }

  lemma {:induction false} SameShapeReach(a: seq<TrieNode>, b: seq<TrieNode>, n: nat, key: seq<Token>)
    requires ChildrenInRange(a) && SameShape(a, b) && n < |a|
    ensures ChildrenInRange(b) && Reach(a, n, key) == Reach(b, n, key)
    decreases |key|
  {
    if key != [] && key[0] in a[n].children {
      SameShapeReach(a, b, a[n].children[key[0]], key[1..]);
    }
  }

  /** Adding an empty leaf under `n` for token `t` keeps existing reaches and stored patterns. */
  lemma {:induction false} NewLeafKeepsPatterns(a: seq<TrieNode>, b: seq<TrieNode>, n: nat, t: Token, m: nat, key: seq<Token>)
    requires ChildrenInRange(a) && n < |a| && m < |a| && t !in a[n].children
    requires b == a[n := a[n].(children := a[n].children[t := |a|])] + [TrieNode(Some(t), [], map[])]
    ensures ChildrenInRange(b)
    ensures PatternsFrom(b, m, key) == PatternsFrom(a, m, key)
    decreases |key|
  {
    assert ChildrenInRange(b) by {
      forall i, u | 0 <= i < |b| && u in b[i].children ensures b[i].children[u] < |b| {
        if i < |a| && !(i == n && u == t) {
          assert b[i].children[u] == a[i].children[u];
        }
      }
    }
    if key == [] {
    } else if m == n && key[0] == t {
      var leaf := |a|;
      assert b[m].children[t] == leaf;
      assert Reach(a, m, key) == None;
      assert Reach(b, m, key) == Reach(b, leaf, key[1..]);
      if key[1..] != [] {
        assert key[1..][0] !in b[leaf].children;
        assert Reach(b, leaf, key[1..]) == None;
      }
    } else if key[0] in a[m].children {
      assert b[m].children[key[0]] == a[m].children[key[0]];
      NewLeafKeepsPatterns(a, b, n, t, a[m].children[key[0]], key[1..]);
    } else {
      assert key[0] !in b[m].children;
    }
  }

  /** Growing the arena with `GetOrCreateChild` keeps the reach of every existing key. */
  lemma ReachGrows(a: seq<TrieNode>, b: seq<TrieNode>, n: nat, key: seq<Token>)
    requires ChildrenInRange(a) && ChildrenInRange(b) && n < |a| <= |b|
    requires forall i, u :: 0 <= i < |a| && u in a[i].children ==> u in b[i].children && b[i].children[u] == a[i].children[u]
    ensures Reach(a, n, key).Some? ==> Reach(b, n, key) == Reach(a, n, key)
    decreases |key|
  {
    if key != [] && key[0] in a[n].children {
      ReachGrows(a, b, a[n].children[key[0]], key[1..]);
    }
  }
}
