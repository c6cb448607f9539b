/**
 * The connection protocol of node-editor ports, stated on values.
 *
 * A state of the port graph is a map from every port to the set of peers it
 * lists (its connection set). The protocol's three mutators
 * (connect, disconnect, clear all connections) are written here as functions
 * that follow the source's guarded recursion step by step. The lemmas give
 * the closed-form effect of each operation and prove that the graph
 * invariant `Wf` is preserved: the peer relation is symmetric, irreflexive
 * and links only ports of one type, and a single-connection port has at
 * most one peer.
 *
 * `P` is the port identity, `T` the declared port type; both are only
 * compared for equality.
 */
module PeerGraph {

  /** The connection set of every port. */
  type Peers<P> = map<P, set<P>>

  /** Why `connect_to` refuses a connection (both are a `ValueError` in the source). */
  datatype ConnectError = SelfConnection | IncompatibleTypes

  datatype Result<T> = Ok(value: T) | Err(error: ConnectError)

  // ---------------------------------------------------------------------
  // The graph invariant
  // ---------------------------------------------------------------------

  /** Every listed peer is itself a port of the graph. */
  predicate Closed<P>(g: Peers<P>)
  {
    forall p | p in g :: g[p] <= g.Keys
  }

  /** If `p` lists `q` then `q` lists `p`. */
  predicate Symmetric<P>(g: Peers<P>)
  {
    forall p, q | p in g && q in g[p] :: q in g && p in g[q]
  }

  /** No port is its own peer. */
  predicate Irreflexive<P>(g: Peers<P>)
  {
    forall p | p in g :: p !in g[p]
  }

  /** Only ports of the same declared type are peers. */
  predicate WellTyped<P, T(==)>(g: Peers<P>, tag: map<P, T>)
    requires g.Keys <= tag.Keys
  {
    forall p, q | p in g && q in g[p] && q in tag :: tag[p] == tag[q]
  }

  /** A port that does not allow multiple connections has at most one peer. */
  predicate SingleRespected<P>(g: Peers<P>, multi: map<P, bool>)
    requires g.Keys <= multi.Keys
  {
    forall p | p in g && !multi[p] :: |g[p]| <= 1
  }

  /** The whole-graph invariant that the three mutators preserve. */
  predicate Wf<P, T(==)>(g: Peers<P>, multi: map<P, bool>, tag: map<P, T>)
  {
    g.Keys == multi.Keys && g.Keys == tag.Keys &&
    Closed(g) && Symmetric(g) && Irreflexive(g) &&
    WellTyped(g, tag) && SingleRespected(g, multi)
  }

  /** `is_compatible_with`: exact equality of the declared types. */
  predicate Compatible<P, T(==)>(tag: map<P, T>, a: P, b: P)
    requires a in tag && b in tag
  {
    tag[a] == tag[b]
  }

  // ---------------------------------------------------------------------
  // The three mutators, following the source's control flow
  // ---------------------------------------------------------------------

  /** Number of directed links between `a` and `b`; it ends the recursion of `Disconnect`. */
  function Links<P>(g: Peers<P>, a: P, b: P): nat
    requires a in g && b in g
  {
    (if b in g[a] then 1 else 0) + (if a in g[b] then 1 else 0)
  }

  /**
   * `a.disconnect_from(b)`: nothing when `a` does not list `b`; otherwise `a`
   * drops `b` and then asks `b` to disconnect from `a`.
   */
  function Disconnect<P>(g: Peers<P>, a: P, b: P): (r: Peers<P>)
    requires a in g && b in g
    ensures r.Keys == g.Keys
    ensures b !in r[a]
    ensures b in g[a] ==> a !in r[b]
    decreases Links(g, a, b)
  {
    if b !in g[a] then g
    else Disconnect(g[a := g[a] - {b}], b, a)
  }

  /**
   * `a.clear_all_connections()`: every peer `p` in the snapshot of `a`'s
   * connection set runs `p.disconnect_from(a)`, which leaves `p` without
   * `a`; finally `a`'s own set is emptied.
   */
  function ClearAll<P>(g: Peers<P>, a: P): (r: Peers<P>)
    requires a in g
    ensures r.Keys == g.Keys
    ensures r[a] == {}
    ensures forall p | p in g && p in g[a] :: a !in r[p]
    ensures forall p | p in g :: r[p] <= g[p]
  {
    map p | p in g :: if p == a then {} else if p in g[a] then g[p] - {a} else g[p]
  }

  /**
   * The local side of `a.connect_to(b)`: a port that does not allow
   * multiple connections first clears all its connections, then `a` lists `b`.
   */
  function Attach<P>(g: Peers<P>, multi: map<P, bool>, a: P, b: P): (r: Peers<P>)
    requires a in g && b in g && g.Keys <= multi.Keys
    ensures r.Keys == g.Keys
    ensures multi[a] ==> r[a] == g[a] + {b}
    ensures !multi[a] ==> r[a] == {b}
    ensures forall p | p in g && p != a :: r[p] <= g[p]
  {
    var g1 := if multi[a] then g else ClearAll(g, a);
    g1[a := g1[a] + {b}]
  }

  /**
   * The guard that ends the recursion of `Connect`: 0 when the call is sure
   * to find `a` already listed by `b` after its own update.
   */
  function ReflectRank<P>(g: Peers<P>, multi: map<P, bool>, a: P, b: P): nat
    requires a in g && b in g && a in multi
  {
    if a in g[b] && (b !in g[a] || multi[a]) then 0 else 1
  }

  /**
   * `a.connect_to(b)`: refuse a self connection, then incompatible types;
   * then the local update `Attach`; and if `b` does not yet list `a`, the
   * call is reflected as `b.connect_to(a)`.
   */
  function Connect<P, T(==)>(g: Peers<P>, multi: map<P, bool>, tag: map<P, T>, a: P, b: P): (r: Result<Peers<P>>)
    requires a in g && b in g && g.Keys <= multi.Keys && g.Keys <= tag.Keys
    ensures r.Ok? <==> a != b && tag[a] == tag[b]
    ensures a == b ==> r == Err(SelfConnection)
    ensures a != b && tag[a] != tag[b] ==> r == Err(IncompatibleTypes)
    ensures r.Ok? ==> r.value.Keys == g.Keys && b in r.value[a] && a in r.value[b]
    ensures r.Ok? && Closed(g) ==> Closed(r.value)
    decreases ReflectRank(g, multi, a, b)
  {
    if a == b then Err(SelfConnection)
    else if !Compatible(tag, a, b) then Err(IncompatibleTypes)
    else
      var g2 := Attach(g, multi, a, b);
      if a in g2[b] then Ok(g2)
      else Connect(g2, multi, tag, b, a)
  }

  // ---------------------------------------------------------------------
  // Disconnect
  // ---------------------------------------------------------------------

  /**
   * Disconnecting is tolerant and exact: it changes nothing when `a` does not
   * list `b`, and otherwise removes the link in both directions and touches
   * no third port. This holds in every state, symmetric or not.
   */
  lemma {:induction false} DisconnectEffect<P>(g: Peers<P>, a: P, b: P)
    requires a in g && b in g
    ensures Disconnect(g, a, b).Keys == g.Keys
    ensures b !in g[a] ==> Disconnect(g, a, b) == g
    ensures b in g[a] ==> Disconnect(g, a, b)[a] == g[a] - {b} && Disconnect(g, a, b)[b] == g[b] - {a}
    ensures forall p | p in g && p != a && p != b :: Disconnect(g, a, b)[p] == g[p]
  {
    if b in g[a] {
      var g1 := g[a := g[a] - {b}];
      assert Disconnect(g, a, b) == Disconnect(g1, b, a);
      if a in g1[b] {
        var g2 := g1[b := g1[b] - {a}];
        assert Disconnect(g1, b, a) == Disconnect(g2, a, b);
        assert b !in g2[a];
        assert Disconnect(g2, a, b) == g2;
      } else {
        assert Disconnect(g1, b, a) == g1;
      }
    }
  }

  /** Disconnecting two ports of a well-formed graph leaves it well-formed. */
  lemma DisconnectPreservesWf<P, T>(g: Peers<P>, multi: map<P, bool>, tag: map<P, T>, a: P, b: P)
    requires Wf(g, multi, tag) && a in g && b in g
    ensures Wf(Disconnect(g, a, b), multi, tag)
    ensures b !in Disconnect(g, a, b)[a] && a !in Disconnect(g, a, b)[b]
  {
    DisconnectEffect(g, a, b);
    var r := Disconnect(g, a, b);
    forall p | p in r && !multi[p] ensures |r[p]| <= 1 {
      SubsetCard(r[p], g[p]);
    }
  }

  // ---------------------------------------------------------------------
  // Clear all connections
  // ---------------------------------------------------------------------

  /**
   * In a well-formed graph, after clearing `a` no port lists `a`, `a` lists
   * nobody, and only `a`'s former peers have changed, each losing just `a`.
   */
  lemma ClearAllEffect<P, T>(g: Peers<P>, multi: map<P, bool>, tag: map<P, T>, a: P)
    requires Wf(g, multi, tag) && a in g
    ensures ClearAll(g, a)[a] == {}
    ensures forall p | p in g :: a !in ClearAll(g, a)[p]
    ensures forall p | p in g && p in g[a] :: ClearAll(g, a)[p] == g[p] - {a}
    ensures forall p | p in g && p != a && p !in g[a] :: ClearAll(g, a)[p] == g[p]
  {
  }

  /** Clearing a port of a well-formed graph leaves it well-formed. */
  lemma ClearAllPreservesWf<P, T>(g: Peers<P>, multi: map<P, bool>, tag: map<P, T>, a: P)
    requires Wf(g, multi, tag) && a in g
    ensures Wf(ClearAll(g, a), multi, tag)
  {
  }

  // ---------------------------------------------------------------------
  // Connect
  // ---------------------------------------------------------------------

  /**
   * The outcome of a successful connect in a well-formed graph: each end
   * keeps its former peers only if it allows multiple connections, and
   * gains the other end; every third port loses each end that does not
   * allow multiple connections; nothing else changes.
   */
  function Linked<P>(g: Peers<P>, multi: map<P, bool>, a: P, b: P): (r: Peers<P>)
    requires g.Keys <= multi.Keys && a in g && b in g
    ensures r.Keys == g.Keys
  {
    map p | p in g ::
      if p == a then (if multi[a] then g[a] else {}) + {b}
      else if p == b then (if multi[b] then g[b] else {}) + {a}
      else g[p] - Dropped(multi, a) - Dropped(multi, b)
  }

  /** The end that a third port loses: `{a}` when `a` allows a single connection. */
  function Dropped<P>(multi: map<P, bool>, a: P): set<P>
    requires a in multi
  {
    if multi[a] then {} else {a}
  }

  /** One port's connection set after `Attach`. */
  lemma AttachAt<P>(g: Peers<P>, multi: map<P, bool>, a: P, b: P, p: P)
    requires a in g && b in g && p in g && g.Keys <= multi.Keys
    ensures Attach(g, multi, a, b)[p] ==
      if p == a then (if multi[a] then g[a] else {}) + {b}
      else if !multi[a] && p in g[a] then g[p] - {a}
      else g[p]
  {
  }

  /**
   * In a well-formed graph, a connect between distinct ports of one type
   * succeeds with exactly the outcome `Linked`: whatever the recursive path
   * through the reflected call and the two possible clears, it ends there.
   */
  lemma ConnectEffect<P, T>(g: Peers<P>, multi: map<P, bool>, tag: map<P, T>, a: P, b: P)
    requires Wf(g, multi, tag) && a in g && b in g && a != b && tag[a] == tag[b]
    ensures Connect(g, multi, tag, a, b) == Ok(Linked(g, multi, a, b))
  {
    if multi[a] && b in g[a] {
      ConnectWithoutReflection(g, multi, tag, a, b);
      LinkedIsIdentity(g, multi, tag, a, b);
    } else {
      ConnectWithReflection(g, multi, tag, a, b);
    }
  }

  /** A multi-connection port already linked to `b`: one step, no reflected call, no change. */
  lemma ConnectWithoutReflection<P, T>(g: Peers<P>, multi: map<P, bool>, tag: map<P, T>, a: P, b: P)
    requires Symmetric(g) && g.Keys == multi.Keys && g.Keys == tag.Keys
    requires a in g && b in g && a != b && tag[a] == tag[b]
    requires multi[a] && b in g[a]
    ensures Connect(g, multi, tag, a, b) == Ok(g)
  {
    assert a in g[b];
    assert g[a] + {b} == g[a];
    assert Attach(g, multi, a, b) == g;
  }

  /** Every other connect runs the reflected call `b.connect_to(a)`, which ends at once. */
  lemma ConnectWithReflection<P, T>(g: Peers<P>, multi: map<P, bool>, tag: map<P, T>, a: P, b: P)
    requires Symmetric(g) && g.Keys == multi.Keys && g.Keys == tag.Keys
    requires a in g && b in g && a != b && tag[a] == tag[b]
    requires !(multi[a] && b in g[a])
    ensures Connect(g, multi, tag, a, b) == Ok(Linked(g, multi, a, b))
  {
    // afterA: the graph after `a`'s local step; afterB: after `b`'s, in the reflected call.
    var afterA := Attach(g, multi, a, b);
    AttachAt(g, multi, a, b, b);
    NotPeer(g, a, b);
    assert a !in afterA[b];
    var afterB := Attach(afterA, multi, b, a);
    AttachAt(afterA, multi, b, a, a);
    assert b in afterB[a];
    assert Connect(afterA, multi, tag, b, a) == Ok(afterB);
    ReflectedIsLinked(g, multi, a, b);
  }

  /** The two local updates of a reflected connect compose to `Linked`. */
  lemma ReflectedIsLinked<P>(g: Peers<P>, multi: map<P, bool>, a: P, b: P)
    requires Symmetric(g) && g.Keys <= multi.Keys && a in g && b in g && a != b
    requires a !in Attach(g, multi, a, b)[b]
    ensures Attach(Attach(g, multi, a, b), multi, b, a) == Linked(g, multi, a, b)
  {
    var afterA := Attach(g, multi, a, b);
    var afterB := Attach(afterA, multi, b, a);
    var want := Linked(g, multi, a, b);
    forall p | p in g ensures afterB[p] == want[p] {
      AttachAt(afterA, multi, b, a, p);
      AttachAt(g, multi, a, b, p);
      if p != a && p != b {
        NotPeer(g, a, p);
        NotPeer(g, b, p);
        ReflectedAt(g[p], g[a], g[b], afterA[p], afterA[b], afterB[p], multi[a], multi[b], a, b, p);
      }
    }
  }

  /**
   * A third port `p` after both local updates of a reflected connect, as
   * plain sets: `xBefore` is port x's set in the original graph, `xAfterA`
   * after `a`'s local step and `xAfterB` after `b`'s; `aMulti` and `bMulti`
   * are the two ends' flags. `p` loses `a` if it was a peer of a
   * single-connection `a`, then loses `b` if it is a peer of a
   * single-connection `b`.
   */
  lemma ReflectedAt<P>(pBefore: set<P>, aBefore: set<P>, bBefore: set<P>,
                       pAfterA: set<P>, bAfterA: set<P>, pAfterB: set<P>,
                       aMulti: bool, bMulti: bool, a: P, b: P, p: P)
    requires p != a && p != b
    requires p !in aBefore ==> a !in pBefore
    requires p !in bBefore ==> b !in pBefore
    requires pAfterA == if !aMulti && p in aBefore then pBefore - {a} else pBefore
    requires bAfterA == if !aMulti && b in aBefore then bBefore - {a} else bBefore
    requires pAfterB == if !bMulti && p in bAfterA then pAfterA - {b} else pAfterA
    ensures pAfterB == pBefore - (if aMulti then {} else {a}) - (if bMulti then {} else {b})
  {
  }

  /** A successful connect keeps a well-formed graph well-formed. */
  lemma ConnectPreservesWf<P, T>(g: Peers<P>, multi: map<P, bool>, tag: map<P, T>, a: P, b: P)
    requires Wf(g, multi, tag) && a in g && b in g
    requires Connect(g, multi, tag, a, b).Ok?
    ensures Wf(Connect(g, multi, tag, a, b).value, multi, tag)
  {
    ConnectEffect(g, multi, tag, a, b);
    var r := Linked(g, multi, a, b);
    LinkedSymmetric(g, multi, a, b);
    LinkedIrreflexive(g, multi, a, b);
    LinkedWellTyped(g, multi, tag, a, b);
    LinkedSingle(g, multi, a, b);
  }

  lemma LinkedSymmetric<P>(g: Peers<P>, multi: map<P, bool>, a: P, b: P)
    requires Symmetric(g) && g.Keys <= multi.Keys && a in g && b in g && a != b
    ensures Symmetric(Linked(g, multi, a, b))
  {
  }

  lemma LinkedIrreflexive<P>(g: Peers<P>, multi: map<P, bool>, a: P, b: P)
    requires Irreflexive(g) && g.Keys <= multi.Keys && a in g && b in g && a != b
    ensures Irreflexive(Linked(g, multi, a, b))
  {
  }

  lemma LinkedWellTyped<P, T>(g: Peers<P>, multi: map<P, bool>, tag: map<P, T>, a: P, b: P)
    requires g.Keys <= tag.Keys && WellTyped(g, tag) && g.Keys <= multi.Keys
    requires a in g && b in g && tag[a] == tag[b]
    ensures WellTyped(Linked(g, multi, a, b), tag)
  {
  }

  lemma LinkedSingle<P>(g: Peers<P>, multi: map<P, bool>, a: P, b: P)
    requires g.Keys <= multi.Keys && SingleRespected(g, multi) && a in g && b in g
    ensures SingleRespected(Linked(g, multi, a, b), multi)
  {
    var r := Linked(g, multi, a, b);
    forall p | p in r && !multi[p] ensures |r[p]| <= 1 {
      if p != a && p != b {
        SubsetCard(r[p], g[p]);
      }
    }
  }

  /**
   * A single-connection port that connects to `b` ends up with `b` as its
   * only peer, and none of its former peers other than `b` lists it any
   * longer.
   */
  lemma ConnectReplacesSingle<P, T>(g: Peers<P>, multi: map<P, bool>, tag: map<P, T>, a: P, b: P)
    requires Wf(g, multi, tag) && a in g && b in g && !multi[a]
    requires a != b && tag[a] == tag[b]
    ensures Connect(g, multi, tag, a, b).value[a] == {b}
    ensures forall c | c in g[a] && c != b :: a !in Connect(g, multi, tag, a, b).value[c]
  {
    ConnectEffect(g, multi, tag, a, b);
  }

  /** A multi-connection port keeps all its former peers and adds `b`. */
  lemma ConnectKeepsMulti<P, T>(g: Peers<P>, multi: map<P, bool>, tag: map<P, T>, a: P, b: P)
    requires Wf(g, multi, tag) && a in g && b in g && multi[a]
    requires a != b && tag[a] == tag[b]
    ensures Connect(g, multi, tag, a, b).value[a] == g[a] + {b}
  {
  }

  /**
   * Connecting a pair that is already connected changes nothing: the set
   * does not duplicate the link and the reflection step stops.
   */
  lemma ConnectLinkedIsNoop<P, T>(g: Peers<P>, multi: map<P, bool>, tag: map<P, T>, a: P, b: P)
    requires Wf(g, multi, tag) && a in g && b in g && b in g[a]
    ensures Connect(g, multi, tag, a, b) == Ok(g)
  {
    ConnectEffect(g, multi, tag, a, b);
    LinkedIsIdentity(g, multi, tag, a, b);
  }

  /** In a well-formed graph, the closed form of connecting a linked pair is the graph itself. */
  lemma LinkedIsIdentity<P, T>(g: Peers<P>, multi: map<P, bool>, tag: map<P, T>, a: P, b: P)
    requires Wf(g, multi, tag) && a in g && b in g && b in g[a]
    ensures Linked(g, multi, a, b) == g
  {
    assert a in g[b];
    if !multi[a] { SingletonOf(g[a], b); }
    if !multi[b] { SingletonOf(g[b], a); }
    LinkedPairIsIdentity(g, multi, a, b);
  }

  lemma LinkedPairIsIdentity<P>(g: Peers<P>, multi: map<P, bool>, a: P, b: P)
    requires Symmetric(g) && g.Keys <= multi.Keys && a in g && b in g
    requires b in g[a] && a in g[b]
    requires !multi[a] ==> g[a] == {b}
    requires !multi[b] ==> g[b] == {a}
    ensures Linked(g, multi, a, b) == g
  {
    var r := Linked(g, multi, a, b);
    forall p | p in g ensures r[p] == g[p] {
      if p != a && p != b {
        NotPeer(g, a, p);
        NotPeer(g, b, p);
        assert a !in g[p] || multi[a];
        assert b !in g[p] || multi[b];
        assert g[p] - Dropped(multi, a) - Dropped(multi, b) == g[p];
      }
    }
  }

  /** A connect touches only its two ends and their former peers. */
  lemma ConnectFrame<P, T>(g: Peers<P>, multi: map<P, bool>, tag: map<P, T>, a: P, b: P, c: P)
    requires Wf(g, multi, tag) && a in g && b in g && c in g
    requires c != a && c != b && c !in g[a] && c !in g[b]
    ensures Connect(g, multi, tag, a, b).Ok? ==> Connect(g, multi, tag, a, b).value[c] == g[c]
  {
  }

  /** By symmetry, a port that is not a peer of `a` does not list `a`. */
  lemma NotPeer<P>(g: Peers<P>, a: P, p: P)
    requires Symmetric(g) && a in g && p in g
    ensures p !in g[a] ==> a !in g[p]
  {
  }

  /** Compatibility is an equivalence on ports. */
  lemma CompatibleIsEquivalence<P, T>(tag: map<P, T>, a: P, b: P, c: P)
    requires a in tag && b in tag && c in tag
    ensures Compatible(tag, a, a)
    ensures Compatible(tag, a, b) == Compatible(tag, b, a)
    ensures Compatible(tag, a, b) && Compatible(tag, b, c) ==> Compatible(tag, a, c)
  {
  }

  // ---------------------------------------------------------------------
  // Set helpers
  // ---------------------------------------------------------------------

  lemma {:induction false} SubsetCard<P>(s: set<P>, t: set<P>)
    requires s <= t
    ensures |s| <= |t|
  {
    if s != {} {
      var x :| x in s;
      SubsetCard(s - {x}, t - {x});
    }
  }

  lemma SingletonOf<P>(s: set<P>, x: P)
    requires x in s && |s| <= 1
    ensures s == {x}
  {
    if s != {x} {
      var y :| y in s && y != x;
      assert {x, y} <= s;
      SubsetCard({x, y}, s);
    }
  }
}
