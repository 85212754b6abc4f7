/** Consistent hashing: walking a ring of points clockwise, and what adding or dropping a node changes. */
module ConsistentHashing {
  import opened Bytes
  import opened Options

  /** A virtual node's place on the ring and the node it belongs to. */
  datatype Point = Point(hash: nat, name: bytes)

  predicate Ascending(ps: seq<Point>) {
    forall i, j :: 0 <= i < j < |ps| ==> ps[i].hash <= ps[j].hash
  }

  predicate StrictlyAscending(ps: seq<Point>) {
    forall i, j :: 0 <= i < j < |ps| ==> ps[i].hash < ps[j].hash
  }

  /** How many points lie before a hash. */
  function Before(ps: seq<Point>, h: nat): (n: nat)
    ensures n <= |ps|
  {
    if ps == [] then 0 else Before(ps[..|ps| - 1], h) + if ps[|ps| - 1].hash < h then 1 else 0
  }

  /** The points in the order in which a clockwise walk from the hash meets them. */
  function Clockwise(ps: seq<Point>, h: nat): (c: seq<Point>)
    ensures |c| == |ps|
  {
    ps[Before(ps, h)..] + ps[..Before(ps, h)]
  }

  lemma {:induction false} BeforeSplits(ps: seq<Point>, h: nat, s: nat)
    requires s <= |ps| && (forall i :: 0 <= i < s ==> ps[i].hash < h) && forall i :: s <= i < |ps| ==> ps[i].hash >= h
    ensures Before(ps, h) == s
  {
    if ps != [] {
      BeforeSplits(ps[..|ps| - 1], h, if s == |ps| then s - 1 else s);
    }
  }

  lemma {:induction false} BeforeIs(ps: seq<Point>, h: nat)
    requires Ascending(ps)
    ensures forall i :: 0 <= i < |ps| ==> (ps[i].hash < h <==> i < Before(ps, h))
  {
    if ps != [] {
      var n := |ps| - 1;
      BeforeIs(ps[..n], h);
      if ps[n].hash < h && n > 0 {
        assert ps[n - 1].hash <= ps[n].hash;
        assert forall i :: 0 <= i < n ==> ps[..n][i].hash < h;
        assert n - 1 < Before(ps[..n], h) by {
          assert ps[..n][n - 1].hash < h;
        }
      }
      assert forall i :: 0 <= i < n ==> ps[..n][i] == ps[i];
    }
  }

  /** The points of all nodes but one. */
  function Without(ps: seq<Point>, name: bytes): seq<Point> {
    if ps == [] then [] else (if ps[0].name == name then [] else [ps[0]]) + Without(ps[1..], name)
  }

  lemma {:induction false} WithoutConcat(a: seq<Point>, b: seq<Point>, name: bytes)
    ensures Without(a + b, name) == Without(a, name) + Without(b, name)
  {
    if a == [] {
      assert a + b == b;
    } else {
      assert (a + b)[1..] == a[1..] + b;
      WithoutConcat(a[1..], b, name);
    }
  }

  lemma {:induction false} WithoutMembers(ps: seq<Point>, name: bytes)
    ensures forall p: Point :: p in Without(ps, name) <==> p in ps && p.name != name
  {
    if ps != [] {
      WithoutMembers(ps[1..], name);
      assert ps == [ps[0]] + ps[1..];
    }
  }

  /** Dropping a node's points and walking the ring can be done in either order. */
  lemma ClockwiseWithout(ps: seq<Point>, h: nat, name: bytes)
    requires Ascending(ps)
    ensures Clockwise(Without(ps, name), h) == Without(Clockwise(ps, h), name)
  {
    var s := Before(ps, h);
    var low, high := ps[..s], ps[s..];
    BeforeIs(ps, h);
    assert ps == low + high;
    WithoutConcat(low, high, name);
    WithoutConcat(high, low, name);
    WithoutMembers(low, name);
    WithoutMembers(high, name);
    var l, r := Without(low, name), Without(high, name);
    var both: seq<Point> := l + r;
    forall i | 0 <= i < |both|
      ensures both[i].hash < h <==> i < |l|
    {
      if i < |l| {
        assert l[i] in low;
      } else {
        assert r[i - |l|] in high;
      }
    }
    BeforeSplits(both, h, |l|);
  }

  // ---------- Owners and replicas ----------

  function NamesOf(ps: seq<Point>): (ns: seq<bytes>)
    ensures |ns| == |ps| && forall i :: 0 <= i < |ps| ==> ns[i] == ps[i].name
  {
    if ps == [] then [] else [ps[0].name] + NamesOf(ps[1..])
  }

  /** The elements in the order of their first occurrence, but for those seen before. */
  function DistinctFirst<T(==)>(s: seq<T>, seen: set<T>): seq<T> {
    if s == [] then []
    else if s[0] in seen then DistinctFirst(s[1..], seen)
    else [s[0]] + DistinctFirst(s[1..], seen + {s[0]})
  }

  function Drop(s: seq<bytes>, name: bytes): seq<bytes> {
    if s == [] then [] else (if s[0] == name then [] else [s[0]]) + Drop(s[1..], name)
  }

  /** The node that a hash belongs to. */
  function Owner(ps: seq<Point>, h: nat): Option<bytes> {
    if ps == [] then None else Some(Clockwise(ps, h)[0].name)
  }

  /** The distinct nodes that a clockwise walk meets. */
  function AllReplicas(ps: seq<Point>, h: nat): seq<bytes> {
    DistinctFirst(NamesOf(Clockwise(ps, h)), {})
  }

  function FirstOf<T>(s: seq<T>, n: nat): (first: seq<T>)
    ensures first <= s && |first| <= n && (|first| < n ==> first == s)
  {
    if |s| <= n then s else s[..n]
  }

  /** The walk starts at the first point not below the hash and goes once around. */
  lemma ClockwiseExactly(ps: seq<Point>, h: nat) returns (n: nat)
    requires Ascending(ps)
    ensures n <= |ps| && Clockwise(ps, h) == ps[n..] + ps[..n]
    ensures forall i :: 0 <= i < |ps| ==> (ps[i].hash < h <==> i < n)
  {
    n := Before(ps, h);
    BeforeIs(ps, h);
  }

  /** A hash belongs to the node of the nearest point at or above it or, above all points, of the lowest one. */
  lemma OwnerExactly(ps: seq<Point>, h: nat) returns (i: nat)
    requires Ascending(ps) && ps != []
    ensures i < |ps| && Owner(ps, h) == Some(ps[i].name)
    ensures if exists j :: 0 <= j < |ps| && ps[j].hash >= h
            then ps[i].hash >= h && forall j :: 0 <= j < |ps| && ps[j].hash >= h ==> ps[i].hash <= ps[j].hash
            else forall j :: 0 <= j < |ps| ==> ps[i].hash <= ps[j].hash
  {
    i := ClockwiseExactly(ps, h);
    if i == |ps| {
      i := 0;
    }
  }

  /** `r` has elements of `s` that were not seen before, each once, and `places` says where. */
  ghost predicate Picks<T(!new)>(s: seq<T>, seen: set<T>, r: seq<T>, places: seq<nat>) {
    && |places| == |r| && (forall i, j :: 0 <= i < j < |places| ==> places[i] < places[j])
    && (forall i, j :: 0 <= i < j < |r| ==> r[i] != r[j])
    && (forall i :: 0 <= i < |r| ==> places[i] < |s| && r[i] == s[places[i]] && r[i] !in seen)
  }

  /** The element at place `k` is listed, at that place or an earlier one. */
  ghost predicate PickedBy<T(!new)>(s: seq<T>, r: seq<T>, places: seq<nat>, k: nat)
    requires k < |s|
  {
    exists i :: 0 <= i < |r| && i < |places| && r[i] == s[k] && places[i] <= k
  }

  /** Each element that was not seen before is listed once, at its first place. */
  lemma {:induction false} FirstPlaces<T(!new)>(s: seq<T>, seen: set<T>) returns (places: seq<nat>)
    ensures Picks(s, seen, DistinctFirst(s, seen), places)
    ensures forall k :: 0 <= k < |s| && s[k] !in seen ==> PickedBy(s, DistinctFirst(s, seen), places, k)
  {
    places := [];
    if s != [] {
      if s[0] in seen {
        var rest := FirstPlaces(s[1..], seen);
        places := seq(|rest|, i requires 0 <= i < |rest| => rest[i] + 1);
        PassSeen(s, seen, DistinctFirst(s[1..], seen), rest, places);
      } else {
        var rest := FirstPlaces(s[1..], seen + {s[0]});
        places := [0] + seq(|rest|, i requires 0 <= i < |rest| => rest[i] + 1);
        TakeUnseen(s, seen, DistinctFirst(s[1..], seen + {s[0]}), rest, places);
      }
    }
  }

  lemma PassSeen<T(!new)>(s: seq<T>, seen: set<T>, r: seq<T>, rest: seq<nat>, places: seq<nat>)
    requires s != [] && s[0] in seen && Picks(s[1..], seen, r, rest)
    requires forall k :: 0 <= k < |s[1..]| && s[1..][k] !in seen ==> PickedBy(s[1..], r, rest, k)
    requires |places| == |rest| && forall i :: 0 <= i < |rest| ==> places[i] == rest[i] + 1
    ensures Picks(s, seen, r, places)
    ensures forall k :: 0 <= k < |s| && s[k] !in seen ==> PickedBy(s, r, places, k)
  {
    forall k | 0 <= k < |s| && s[k] !in seen
      ensures PickedBy(s, r, places, k)
    {
      assert PickedBy(s[1..], r, rest, k - 1);
      var i :| 0 <= i < |r| && r[i] == s[1..][k - 1] && rest[i] <= k - 1;
      assert r[i] == s[k] && places[i] <= k;
    }
  }

  lemma TakeUnseen<T(!new)>(s: seq<T>, seen: set<T>, r: seq<T>, rest: seq<nat>, places: seq<nat>)
    requires s != [] && s[0] !in seen && Picks(s[1..], seen + {s[0]}, r, rest)
    requires forall k :: 0 <= k < |s[1..]| && s[1..][k] !in seen + {s[0]} ==> PickedBy(s[1..], r, rest, k)
    requires |places| == |rest| + 1 && places[0] == 0 && forall i :: 0 <= i < |rest| ==> places[i + 1] == rest[i] + 1
    ensures Picks(s, seen, [s[0]] + r, places)
    ensures forall k :: 0 <= k < |s| && s[k] !in seen ==> PickedBy(s, [s[0]] + r, places, k)
  {
    hide Picks, PickedBy;
    PicksMore(s, seen, r, rest, places);
    forall k | 0 <= k < |s| && s[k] !in seen
      ensures PickedBy(s, [s[0]] + r, places, k)
    {
      PickedLater(s, r, rest, places, k);
    }
  }

  lemma PickedLater<T(!new)>(s: seq<T>, r: seq<T>, rest: seq<nat>, places: seq<nat>, k: nat)
    requires k < |s| && (s[k] == s[0] || PickedBy(s[1..], r, rest, k - 1))
    requires |places| == |rest| + 1 && places[0] == 0 && forall i :: 0 <= i < |rest| ==> places[i + 1] == rest[i] + 1
    ensures PickedBy(s, [s[0]] + r, places, k)
  {
    var all := [s[0]] + r;
    if s[k] == s[0] {
      assert all[0] == s[k] && places[0] <= k;
    } else {
      var i :| 0 <= i < |r| && i < |rest| && r[i] == s[1..][k - 1] && rest[i] <= k - 1;
      assert all[i + 1] == s[k] && places[i + 1] <= k;
    }
  }

  lemma PicksMore<T(!new)>(s: seq<T>, seen: set<T>, r: seq<T>, rest: seq<nat>, places: seq<nat>)
    requires s != [] && s[0] !in seen && Picks(s[1..], seen + {s[0]}, r, rest)
    requires |places| == |rest| + 1 && places[0] == 0 && forall i :: 0 <= i < |rest| ==> places[i + 1] == rest[i] + 1
    ensures Picks(s, seen, [s[0]] + r, places)
  {
    var all := [s[0]] + r;
    assert forall i :: 0 <= i < |r| ==> r[i] != s[0];
    forall i | 0 <= i < |all|
      ensures places[i] < |s| && all[i] == s[places[i]] && all[i] !in seen
    {
      if i > 0 {
        assert r[i - 1] == s[1..][rest[i - 1]];
      }
    }
    forall i, j | 0 <= i < j < |places|
      ensures places[i] < places[j]
    {
      assert i > 0 ==> rest[i - 1] < rest[j - 1];
    }
  }

  /** The replicas are all nodes of the ring, each once, in the order in which the walk first meets them. */
  lemma ReplicasExactly(ps: seq<Point>, h: nat) returns (places: seq<nat>)
    requires Ascending(ps)
    ensures var r, c := AllReplicas(ps, h), Clockwise(ps, h);
            && |places| == |r| && (forall i, j :: 0 <= i < j < |places| ==> places[i] < places[j])
            && (forall i :: 0 <= i < |r| ==> places[i] < |c| && r[i] == c[places[i]].name)
            && (forall i, j :: 0 <= i < j < |r| ==> r[i] != r[j])
            && forall k :: 0 <= k < |c| ==> exists i :: 0 <= i < |r| && r[i] == c[k].name && places[i] <= k
    ensures ps != [] ==> AllReplicas(ps, h) != [] && Owner(ps, h) == Some(AllReplicas(ps, h)[0])
  {
    hide Clockwise, DistinctFirst;
    var c := Clockwise(ps, h);
    places := FirstPlaces(NamesOf(c), {});
    forall k | 0 <= k < |c|
      ensures exists i :: 0 <= i < |AllReplicas(ps, h)| && AllReplicas(ps, h)[i] == c[k].name && places[i] <= k
    {
      assert NamesOf(c)[k] == c[k].name && PickedBy(NamesOf(c), AllReplicas(ps, h), places, k);
    }
  }

  /** Dropping a node changes the owner of no key that the node did not own. */
  lemma OthersKeepOwner(ps: seq<Point>, h: nat, name: bytes)
    requires Ascending(ps) && Owner(ps, h) != Some(name)
    ensures Owner(Without(ps, name), h) == Owner(ps, h)
  {
    ClockwiseWithout(ps, h, name);
    if ps != [] {
      assert Without(Clockwise(ps, h), name)[0] == Clockwise(ps, h)[0];
    }
  }

  lemma NamesTail(p: Point, rest: seq<Point>)
    ensures NamesOf([p] + rest) == [p.name] + NamesOf(rest) && NamesOf([p] + rest)[1..] == NamesOf(rest)
  {
  }

  lemma DropHead(x: bytes, rest: seq<bytes>, name: bytes)
    ensures Drop([x] + rest, name) == (if x == name then [] else [x]) + Drop(rest, name)
  {
  }

  lemma SeenMore(seen: set<bytes>, seen': set<bytes>, name: bytes, x: bytes)
    requires seen - {name} == seen' - {name}
    ensures (seen + {x}) - {name} == (seen' + {x}) - {name}
  {
    forall y: bytes
      ensures y in (seen + {x}) - {name} <==> y in (seen' + {x}) - {name}
    {
      assert y in seen - {name} <==> y in seen' - {name};
    }
  }

  lemma {:induction false} DistinctWithout(c: seq<Point>, name: bytes, seen: set<bytes>, seen': set<bytes>)
    requires seen - {name} == seen' - {name}
    ensures DistinctFirst(NamesOf(Without(c, name)), seen') == Drop(DistinctFirst(NamesOf(c), seen), name)
  {
    if c != [] {
      NamesTail(c[0], c[1..]);
      assert c == [c[0]] + c[1..];
      var rest := Without(c[1..], name);
      NamesTail(c[0], rest);
      if c[0].name == name {
        assert Without(c, name) == rest;
        if name in seen {
          DistinctWithout(c[1..], name, seen, seen');
        } else {
          DistinctWithout(c[1..], name, seen + {name}, seen');
          DropHead(name, DistinctFirst(NamesOf(c[1..]), seen + {name}), name);
        }
      } else {
        assert c[0].name in seen <==> c[0].name in seen - {name};
        assert c[0].name in seen' <==> c[0].name in seen' - {name};
        if c[0].name in seen {
          DistinctWithout(c[1..], name, seen, seen');
        } else {
          SeenMore(seen, seen', name, c[0].name);
          DistinctWithout(c[1..], name, seen + {c[0].name}, seen' + {c[0].name});
          DropHead(c[0].name, DistinctFirst(NamesOf(c[1..]), seen + {c[0].name}), name);
        }
      }
    }
  }

  lemma {:induction false} DropPrefix(s: seq<bytes>, name: bytes, n: nat)
    requires n <= |s|
    ensures Drop(s[..n], name) <= Drop(s, name) && |Drop(s[..n], name)| <= n
  {
    if n > 0 {
      assert s[..n][1..] == s[1..][..n - 1];
      DropPrefix(s[1..], name, n - 1);
    }
  }

  /** The replicas with a node, that node dropped, are a prefix of the replicas without it. */
  lemma ReplicasWithout(ps: seq<Point>, h: nat, name: bytes, n: nat)
    requires Ascending(ps)
    ensures Drop(FirstOf(AllReplicas(ps, h), n), name) <= FirstOf(AllReplicas(Without(ps, name), h), n)
  {
    hide Clockwise, DistinctFirst, Without, Ascending, NamesOf;
    ClockwiseWithout(ps, h, name);
    DistinctWithout(Clockwise(ps, h), name, {}, {});
    var all := AllReplicas(ps, h);
    var k := if |all| <= n then |all| else n;
    assert all[..|all|] == all;
    DropPrefix(all, name, k);
  }

  // ---------- The ring of a set of nodes ----------

  const VNODES := 128

  /** The hash of a node's virtual node; nothing is assumed about it. */
  type VNodeHash = (bytes, nat) -> nat

  ghost predicate IsVNode(p: Point, vh: VNodeHash) {
    exists v: nat :: v < VNODES && p.hash == vh(p.name, v)
  }

  /** The points are exactly the virtual nodes of the named nodes. */
  ghost predicate PointsOf(ps: seq<Point>, names: set<bytes>, vh: VNodeHash) {
    && (forall i :: 0 <= i < |ps| ==> ps[i].name in names && IsVNode(ps[i], vh))
    && forall a, v: nat :: a in names && v < VNODES ==> Point(vh(a, v), a) in ps
  }

  /** No two virtual nodes of the named nodes have the same hash. */
  ghost predicate DistinctHashes(names: set<bytes>, vh: VNodeHash) {
    forall a, b, v: nat, w: nat :: a in names && b in names && v < VNODES && w < VNODES && vh(a, v) == vh(b, w) ==> a == b && v == w
  }

  /** A strictly ascending ring is determined by its points. */
  lemma {:induction false} RingUnique(ps: seq<Point>, qs: seq<Point>)
    requires StrictlyAscending(ps) && StrictlyAscending(qs) && forall p: Point :: p in ps <==> p in qs
    ensures ps == qs
  {
    assert (qs != [] ==> qs[0] in ps) && (ps != [] ==> ps[0] in qs);
    if ps != [] && qs != [] {
      var i :| 0 <= i < |qs| && qs[i] == ps[0];
      assert qs[0] in ps;
      var j :| 0 <= j < |ps| && ps[j] == qs[0];
      assert i == 0 && j == 0;
      forall p: Point
        ensures p in ps[1..] <==> p in qs[1..]
      {
        TailMember(ps, p);
        TailMember(qs, p);
      }
      RingUnique(ps[1..], qs[1..]);
    }
  }

  lemma TailMember(ps: seq<Point>, p: Point)
    requires StrictlyAscending(ps) && ps != []
    ensures p in ps[1..] <==> p in ps && p != ps[0]
  {
    assert ps == [ps[0]] + ps[1..];
  }

  lemma {:induction false} WithoutStrict(ps: seq<Point>, name: bytes)
    requires StrictlyAscending(ps)
    ensures StrictlyAscending(Without(ps, name))
  {
    if ps != [] {
      WithoutStrict(ps[1..], name);
      WithoutMembers(ps[1..], name);
      var rest := Without(ps[1..], name);
      forall j | 0 <= j < |rest|
        ensures ps[0].hash < rest[j].hash
      {
        assert rest[j] in ps[1..];
      }
    }
  }

  /** The ring of fewer nodes is the ring of all with the missing node's points dropped. */
  lemma RingWithout(ps: seq<Point>, qs: seq<Point>, names: set<bytes>, name: bytes, vh: VNodeHash)
    requires StrictlyAscending(ps) && StrictlyAscending(qs)
    requires PointsOf(ps, names, vh) && PointsOf(qs, names - {name}, vh)
    ensures qs == Without(ps, name)
  {
    WithoutStrict(ps, name);
    WithoutMembers(ps, name);
    forall p: Point
      ensures p in qs <==> p in ps && p.name != name
    {
      if p in qs {
        var i :| 0 <= i < |qs| && qs[i] == p;
        assert IsVNode(p, vh);
        var v: nat :| v < VNODES && p.hash == vh(p.name, v);
        assert Point(vh(p.name, v), p.name) in ps;
      }
      if p in ps && p.name != name {
        var i :| 0 <= i < |ps| && ps[i] == p;
        assert IsVNode(p, vh);
        var v: nat :| v < VNODES && p.hash == vh(p.name, v);
        assert Point(vh(p.name, v), p.name) in qs;
      }
    }
    RingUnique(qs, Without(ps, name));
  }

  /** What dropping a node changes: only keys that it owned get another owner, and replica lists only move up. */
  ghost predicate MovesOnly(all: seq<Point>, fewer: seq<Point>, name: bytes) {
    && (forall h: nat :: Owner(all, h) != Some(name) ==> Owner(fewer, h) == Owner(all, h))
    && forall h: nat, n: nat :: Drop(FirstOf(AllReplicas(all, h), n), name) <= FirstOf(AllReplicas(fewer, h), n)
  }

  lemma MinimalMovement(all: seq<Point>, fewer: seq<Point>, names: set<bytes>, name: bytes, vh: VNodeHash)
    requires StrictlyAscending(all) && StrictlyAscending(fewer)
    requires PointsOf(all, names, vh) && PointsOf(fewer, names - {name}, vh)
    ensures MovesOnly(all, fewer, name)
  {
    RingWithout(all, fewer, names, name, vh);
    StrictIsAscending(all);
    hide Owner, AllReplicas, Drop, FirstOf, PointsOf, StrictlyAscending;
    forall h: nat | Owner(all, h) != Some(name)
      ensures Owner(fewer, h) == Owner(all, h)
    {
      OthersKeepOwner(all, h, name);
    }
    forall h: nat, n: nat
      ensures Drop(FirstOf(AllReplicas(all, h), n), name) <= FirstOf(AllReplicas(fewer, h), n)
    {
      ReplicasWithout(all, h, name, n);
    }
  }

  lemma StrictIsAscending(ps: seq<Point>)
    requires StrictlyAscending(ps)
    ensures Ascending(ps)
  {
  }
}

/** The sorted array of virtual nodes. */
module RingArrays {
  import opened Bytes
  import opened ConsistentHashing

  datatype HashNode = HashNode(name: bytes, isActive: bool)

  datatype VNode = VNode(hash: nat, nodeIdx: nat)

  function NodePoints(name: bytes, idx: nat, n: nat, vh: VNodeHash): (ps: seq<VNode>)
    ensures |ps| == n && forall v :: 0 <= v < n ==> ps[v] == VNode(vh(name, v), idx)
  {
    seq(n, v requires 0 <= v < n => VNode(vh(name, v), idx))
  }

  /** The virtual nodes of all active nodes, node after node. */
  function RawRing(nodes: seq<HashNode>, vh: VNodeHash): (ps: seq<VNode>)
    ensures |ps| <= |nodes| * VNODES
  {
    if nodes == [] then []
    else
      var n := |nodes| - 1;
      RawRing(nodes[..n], vh) + if nodes[n].isActive then NodePoints(nodes[n].name, n, VNODES, vh) else []
  }

  predicate AscendingV(s: seq<VNode>) {
    forall i, j :: 0 <= i < j < |s| ==> s[i].hash <= s[j].hash
  }

  predicate StrictV(s: seq<VNode>) {
    forall i, j :: 0 <= i < j < |s| ==> s[i].hash < s[j].hash
  }

  predicate DistinctV(s: seq<VNode>) {
    forall i, j :: 0 <= i < j < |s| ==> s[i].hash != s[j].hash
  }

  function InsertV(s: seq<VNode>, x: VNode): (r: seq<VNode>)
    ensures |r| == |s| + 1
  {
    if s == [] || x.hash <= s[0].hash then [x] + s else [s[0]] + InsertV(s[1..], x)
  }

  /** Sorting by hash. */
  function SortV(s: seq<VNode>): (r: seq<VNode>)
    ensures |r| == |s|
  {
    if s == [] then [] else InsertV(SortV(s[..|s| - 1]), s[|s| - 1])
  }

  lemma {:induction false} InsertMembers(s: seq<VNode>, x: VNode)
    ensures forall y: VNode :: y in InsertV(s, x) <==> y == x || y in s
  {
    if !(s == [] || x.hash <= s[0].hash) {
      InsertMembers(s[1..], x);
      assert s == [s[0]] + s[1..];
    }
  }

  lemma {:induction false} InsertSorted(s: seq<VNode>, x: VNode)
    requires AscendingV(s)
    ensures AscendingV(InsertV(s, x))
    ensures StrictV(s) && (forall i :: 0 <= i < |s| ==> s[i].hash != x.hash) ==> StrictV(InsertV(s, x))
  {
    if !(s == [] || x.hash <= s[0].hash) {
      var rest := InsertV(s[1..], x);
      InsertSorted(s[1..], x);
      InsertMembers(s[1..], x);
      forall j | 0 <= j < |rest|
        ensures s[0].hash <= rest[j].hash && (StrictV(s) ==> s[0].hash < rest[j].hash)
      {
        assert rest[j] in rest;
        assert rest[j] == x || rest[j] in s[1..];
      }
    }
  }

  lemma {:induction false} SortFacts(s: seq<VNode>)
    ensures AscendingV(SortV(s)) && (forall y: VNode :: y in SortV(s) <==> y in s)
    ensures DistinctV(s) ==> StrictV(SortV(s))
  {
    if s != [] {
      var n := |s| - 1;
      var sorted := SortV(s[..n]);
      SortFacts(s[..n]);
      InsertMembers(sorted, s[n]);
      InsertSorted(sorted, s[n]);
      assert s == s[..n] + [s[n]];
      if DistinctV(s) {
        forall i | 0 <= i < |sorted|
          ensures sorted[i].hash != s[n].hash
        {
          assert sorted[i] in s[..n];
        }
      }
    }
  }

  // ---------- From nodes to points ----------

  predicate DistinctNames(nodes: seq<HashNode>) {
    forall i, j :: 0 <= i < j < |nodes| ==> nodes[i].name != nodes[j].name
  }

  function ActiveNames(nodes: seq<HashNode>): set<bytes> {
    set i | 0 <= i < |nodes| && nodes[i].isActive :: nodes[i].name
  }

  /** The virtual node is one of an active node. */
  ghost predicate IsVNodeOf(x: VNode, nodes: seq<HashNode>, vh: VNodeHash) {
    && x.nodeIdx < |nodes| && nodes[x.nodeIdx].isActive
    && exists v: nat :: v < VNODES && x.hash == vh(nodes[x.nodeIdx].name, v)
  }

  lemma {:induction false} RawMembers(nodes: seq<HashNode>, vh: VNodeHash)
    ensures forall x: VNode :: x in RawRing(nodes, vh) ==> IsVNodeOf(x, nodes, vh)
    ensures forall i, v: nat {:trigger vh(nodes[i].name, v)} :: 0 <= i < |nodes| && nodes[i].isActive && v < VNODES ==>
              VNode(vh(nodes[i].name, v), i) in RawRing(nodes, vh)
  {
    if nodes != [] {
      var n := |nodes| - 1;
      var last := NodePoints(nodes[n].name, n, VNODES, vh);
      RawMembers(nodes[..n], vh);
      forall x: VNode | x in RawRing(nodes, vh)
        ensures IsVNodeOf(x, nodes, vh)
      {
        if x in RawRing(nodes[..n], vh) {
          assert IsVNodeOf(x, nodes[..n], vh);
        } else {
          var v :| 0 <= v < VNODES && last[v] == x;
        }
      }
      forall i, v: nat | 0 <= i < |nodes| && nodes[i].isActive && v < VNODES
        ensures VNode(vh(nodes[i].name, v), i) in RawRing(nodes, vh)
      {
        if i < n {
          assert nodes[..n][i] == nodes[i];
          assert VNode(vh(nodes[..n][i].name, v), i) in RawRing(nodes[..n], vh);
        } else {
          assert last[v] == VNode(vh(nodes[i].name, v), i);
        }
      }
    }
  }

  lemma {:induction false} RawDistinct(nodes: seq<HashNode>, vh: VNodeHash)
    requires DistinctNames(nodes) && DistinctHashes(ActiveNames(nodes), vh)
    ensures DistinctV(RawRing(nodes, vh))
  {
    if nodes != [] {
      var n := |nodes| - 1;
      var low, last := RawRing(nodes[..n], vh), NodePoints(nodes[n].name, n, VNODES, vh);
      FewerActive(nodes, vh);
      RawDistinct(nodes[..n], vh);
      RawMembers(nodes[..n], vh);
      if nodes[n].isActive {
        assert nodes[n].name in ActiveNames(nodes);
        forall i, v | 0 <= i < |low| && 0 <= v < VNODES
          ensures low[i].hash != last[v].hash
        {
          assert low[i] in low && IsVNodeOf(low[i], nodes[..n], vh);
          var k := low[i].nodeIdx;
          assert nodes[k].name in ActiveNames(nodes);
        }
        forall v, w | 0 <= v < w < VNODES
          ensures last[v].hash != last[w].hash
        {
        }
      }
    }
  }

  lemma FewerActive(nodes: seq<HashNode>, vh: VNodeHash)
    requires nodes != [] && DistinctNames(nodes) && DistinctHashes(ActiveNames(nodes), vh)
    ensures DistinctNames(nodes[..|nodes| - 1]) && DistinctHashes(ActiveNames(nodes[..|nodes| - 1]), vh)
  {
    var init := nodes[..|nodes| - 1];
    forall a | a in ActiveNames(init)
      ensures a in ActiveNames(nodes)
    {
      var i :| 0 <= i < |init| && init[i].isActive && init[i].name == a;
      assert nodes[i].name == a;
    }
  }

  /** The ring as points that carry their node's name. */
  function ToPoints(ring: seq<VNode>, nodes: seq<HashNode>): (ps: seq<Point>)
    requires forall i :: 0 <= i < |ring| ==> ring[i].nodeIdx < |nodes|
    ensures |ps| == |ring| && forall i :: 0 <= i < |ring| ==> ps[i] == Point(ring[i].hash, nodes[ring[i].nodeIdx].name)
  {
    seq(|ring|, i requires 0 <= i < |ring| => Point(ring[i].hash, nodes[ring[i].nodeIdx].name))
  }

  ghost predicate RingOf(ring: seq<VNode>, nodes: seq<HashNode>, vh: VNodeHash) {
    ring == SortV(RawRing(nodes, vh))
  }

  /** The sorted ring of the nodes has exactly their points in ascending order, strictly so if names and hashes are distinct. */
  lemma RingFacts(ring: seq<VNode>, nodes: seq<HashNode>, vh: VNodeHash)
    requires RingOf(ring, nodes, vh)
    ensures forall i :: 0 <= i < |ring| ==> ring[i].nodeIdx < |nodes|
    ensures Ascending(ToPoints(ring, nodes)) && PointsOf(ToPoints(ring, nodes), ActiveNames(nodes), vh)
    ensures DistinctNames(nodes) && DistinctHashes(ActiveNames(nodes), vh) ==> StrictlyAscending(ToPoints(ring, nodes))
  {
    hide SortV, RawRing, DistinctNames, DistinctHashes;
    var raw := RawRing(nodes, vh);
    SortFacts(raw);
    RawMembers(nodes, vh);
    if DistinctNames(nodes) && DistinctHashes(ActiveNames(nodes), vh) {
      RawDistinct(nodes, vh);
    }
    AllVNodes(ring, nodes, vh);
    EveryVNode(ring, nodes, vh);
  }

  lemma AllVNodes(ring: seq<VNode>, nodes: seq<HashNode>, vh: VNodeHash)
    requires forall x: VNode :: x in ring ==> IsVNodeOf(x, nodes, vh)
    ensures forall i :: 0 <= i < |ring| ==> ring[i].nodeIdx < |nodes|
    ensures var ps := ToPoints(ring, nodes); forall i :: 0 <= i < |ps| ==> ps[i].name in ActiveNames(nodes) && IsVNode(ps[i], vh)
  {
    forall i | 0 <= i < |ring|
      ensures IsVNodeOf(ring[i], nodes, vh)
    {
      assert ring[i] in ring;
    }
    var ps := ToPoints(ring, nodes);
    forall i | 0 <= i < |ps|
      ensures ps[i].name in ActiveNames(nodes) && IsVNode(ps[i], vh)
    {
      assert IsVNodeOf(ring[i], nodes, vh);
      var v: nat :| v < VNODES && ring[i].hash == vh(nodes[ring[i].nodeIdx].name, v);
      assert v < VNODES && ps[i].hash == vh(ps[i].name, v);
    }
  }

  lemma EveryVNode(ring: seq<VNode>, nodes: seq<HashNode>, vh: VNodeHash)
    requires forall i :: 0 <= i < |ring| ==> ring[i].nodeIdx < |nodes|
    requires forall i, v: nat {:trigger vh(nodes[i].name, v)} :: 0 <= i < |nodes| && nodes[i].isActive && v < VNODES ==>
               VNode(vh(nodes[i].name, v), i) in ring
    ensures forall a, v: nat :: a in ActiveNames(nodes) && v < VNODES ==> Point(vh(a, v), a) in ToPoints(ring, nodes)
  {
    var ps := ToPoints(ring, nodes);
    forall a, v: nat | a in ActiveNames(nodes) && v < VNODES
      ensures Point(vh(a, v), a) in ps
    {
      var i :| 0 <= i < |nodes| && nodes[i].isActive && nodes[i].name == a;
      assert VNode(vh(nodes[i].name, v), i) in ring;
      var k :| 0 <= k < |ring| && ring[k] == VNode(vh(nodes[i].name, v), i);
      assert ps[k] == Point(vh(a, v), a);
    }
  }
}

/** The ring object: node table, sorted virtual-node array, lookups. */
module HashRings {
  import opened Bytes
  import opened ConsistentHashing
  import opened RingArrays
  import opened Options

  const MAX_NODES := 64
  const TOTAL_SLOTS := 8192
  const NAME_SIZE := 64

  class HashRing {
    const vnodeHash: VNodeHash
    const keyHash: bytes -> nat
    const nodes: array<HashNode>
    const ring: array<VNode>
    var nodeCount: nat
    var ringSize: nat

    ghost predicate Shape()
      reads this
    {
      nodes.Length == MAX_NODES && ring.Length == TOTAL_SLOTS && nodeCount <= MAX_NODES && ringSize <= TOTAL_SLOTS
    }

    ghost predicate Valid()
      reads this, nodes, ring
    {
      && Shape() && RingOf(ring[..ringSize], nodes[..nodeCount], vnodeHash)
      && forall i :: 0 <= i < nodeCount ==> |nodes[i].name| < NAME_SIZE
    }

    /** No two nodes of the table have the same name. */
    ghost predicate Distinct()
      reads this, nodes
    {
      nodeCount <= nodes.Length && DistinctNames(nodes[..nodeCount])
    }

    /** The ring with names in place of node indices, which change when a node is removed. */
    ghost function Points(): (ps: seq<Point>)
      requires Valid()
      reads this, nodes, ring
      ensures |ps| == ringSize
    {
      RingFacts(ring[..ringSize], nodes[..nodeCount], vnodeHash);
      ToPoints(ring[..ringSize], nodes[..nodeCount])
    }

    ghost function Names(): set<bytes>
      requires Valid()
      reads this, nodes, ring
    {
      ActiveNames(nodes[..nodeCount])
    }

    constructor (vnodeHash: VNodeHash, keyHash: bytes -> nat)
      ensures Valid() && Distinct() && Names() == {} && nodeCount == 0 && this.vnodeHash == vnodeHash && this.keyHash == keyHash
      ensures fresh(nodes) && fresh(ring)
    {
      this.vnodeHash, this.keyHash := vnodeHash, keyHash;
      nodes := new HashNode[MAX_NODES](_ => HashNode([], false));
      ring := new VNode[TOTAL_SLOTS](_ => VNode(0, 0));
      nodeCount, ringSize := 0, 0;
    }

    /** What the ring's points are. */
    lemma PointFacts()
      requires Valid()
      ensures Ascending(Points()) && PointsOf(Points(), Names(), vnodeHash)
      ensures Distinct() && DistinctHashes(Names(), vnodeHash) ==> StrictlyAscending(Points())
      ensures forall i :: 0 <= i < ringSize ==>
                ring[i].nodeIdx < nodeCount && Points()[i] == Point(ring[i].hash, nodes[ring[i].nodeIdx].name)
    {
      RingFacts(ring[..ringSize], nodes[..nodeCount], vnodeHash);
    }

    /** Fills the ring with the virtual nodes of the active nodes and sorts it. */
    method Rebuild()
      requires Shape() && forall i :: 0 <= i < nodeCount ==> |nodes[i].name| < NAME_SIZE
      modifies this`ringSize, ring
      ensures Valid()
    {
      hide SortV, RawRing;
      var idx: nat := 0;
      var n: nat := 0;
      assert nodes[..0] == [];
      NoNodes(vnodeHash);
      while n < nodeCount
        invariant 0 <= n <= nodeCount && idx <= n * VNODES && ring[..idx] == RawRing(nodes[..n], vnodeHash)
      {
        RawStep(nodes[..n + 1], vnodeHash);
        assert nodes[..n + 1][..n] == nodes[..n];
        if nodes[n].isActive {
          idx := PlaceVNodes(nodes[n].name, n, idx);
        }
        n := n + 1;
      }
      ringSize := idx;
      SortRing();
    }

    lemma NoNodes(vh: VNodeHash)
      ensures RawRing([], vh) == []
    {
    }

    lemma RawStep(ns: seq<HashNode>, vh: VNodeHash)
      requires ns != []
      ensures var n := |ns| - 1; RawRing(ns, vh) == RawRing(ns[..n], vh) + if ns[n].isActive then NodePoints(ns[n].name, n, VNODES, vh) else []
    {
    }

    method PlaceVNodes(name: bytes, n: nat, idx0: nat) returns (idx: nat)
      requires ring.Length == TOTAL_SLOTS && idx0 + VNODES <= TOTAL_SLOTS
      modifies ring
      ensures idx == idx0 + VNODES && ring[..idx] == old(ring[..idx0]) + NodePoints(name, n, VNODES, vnodeHash)
    {
      idx := idx0;
      var v := 0;
      while v < VNODES && idx < TOTAL_SLOTS
        invariant 0 <= v <= VNODES && idx == idx0 + v && ring[..idx0] == old(ring[..idx0])
        invariant forall w :: 0 <= w < v ==> ring[idx0 + w] == VNode(vnodeHash(name, w), n)
      {
        ring[idx] := VNode(vnodeHash(name, v), n);
        idx := idx + 1;
        v := v + 1;
      }
    }

    /** The library's sort, by hash. */
    method SortRing()
      requires ring.Length == TOTAL_SLOTS && ringSize <= TOTAL_SLOTS
      modifies ring
      ensures ring[..ringSize] == SortV(old(ring[..ringSize]))
    {
      var sorted := SortV(ring[..ringSize]);
      forall i | 0 <= i < ringSize {
        ring[i] := sorted[i];
      }
    }

    /** The index of the first node with a name, or -1. */
    method IndexOfName(name: bytes) returns (found: int)
      requires Shape()
      ensures found == FirstNamed(nodes[..nodeCount], name)
    {
      var i := 0;
      while i < nodeCount
        invariant 0 <= i <= nodeCount && forall k :: 0 <= k < i ==> nodes[k].name != name
      {
        if nodes[i].name == name {
          return i;
        }
        i := i + 1;
      }
      found := -1;
    }

    /** Adds a node under its name's first 63 bytes; the whole name is what the table is searched for. Names stay
        distinct exactly if a truncated one is new. With distinct names and hashes keys move only to the new node. */
    method AddNode(name: bytes) returns (r: int)
      requires Valid()
      modifies this, nodes, ring
      ensures Valid()
      ensures r >= -1 && (r == -1 <==> old(nodeCount) == 64)
      ensures r == 0 <==> old(nodeCount) < MAX_NODES && exists i :: 0 <= i < old(nodeCount) && old(nodes[i].name) == name
      ensures r <= 0 ==> nodes[..nodeCount] == old(nodes[..nodeCount]) && Points() == old(Points()) && Names() == old(Names())
      ensures r > 0 ==> r == nodeCount && nodes[..nodeCount] == old(nodes[..nodeCount]) + [HashNode(Stored(name), true)]
      ensures r > 0 ==> Names() == old(Names()) + {Stored(name)}
      ensures r > 0 ==> (Distinct() <==> old(Distinct()) && (|name| < NAME_SIZE || FirstNamed(old(nodes[..nodeCount]), Stored(name)) < 0))
      ensures r > 0 && Distinct() && DistinctHashes(Names(), vnodeHash) ==> MovesOnly(Points(), old(Points()), Stored(name))
    {
      hide RingOf, ToPoints, PointsOf, DistinctHashes, MovesOnly, FirstNamed, DistinctNames, ActiveNames, Ascending, StrictlyAscending;
      if nodeCount >= MAX_NODES {
        return -1;
      }
      var dup := IndexOfName(name);
      if dup >= 0 {
        return 0;
      }
      PointFacts();
      ghost var before, names, points := nodes[..nodeCount], Names(), Points();
      nodes[nodeCount] := HashNode(Stored(name), true);
      nodeCount := nodeCount + 1;
      assert nodes[..nodeCount] == before + [HashNode(Stored(name), true)];
      NameAdded(before, Stored(name));
      Rebuild();
      PointFacts();
      r := nodeCount;
      if Distinct() && DistinctHashes(Names(), vnodeHash) {
        assert Names() - {Stored(name)} == names;
        FewerDistinct(names, Names(), vnodeHash);
        MinimalMovement(Points(), points, Names(), Stored(name), vnodeHash);
      }
    }

    /** Removes the first node with the name, the last one taking its index; with distinct names and hashes only its keys move. */
    method RemoveNode(name: bytes) returns (r: int)
      requires Valid()
      modifies this, nodes, ring
      ensures Valid()
      ensures r == -2 <==> forall i :: 0 <= i < old(nodeCount) ==> old(nodes[i].name) != name
      ensures r < 0 ==> r == -2 && nodes[..nodeCount] == old(nodes[..nodeCount]) && Points() == old(Points())
      ensures r >= 0 ==> var ns := old(nodes[..nodeCount]);
                         r == nodeCount == |ns| - 1 && nodes[..nodeCount] == ns[FirstNamed(ns, name) := ns[|ns| - 1]][..|ns| - 1]
      ensures r >= 0 && old(Distinct()) ==> Distinct() && Names() == old(Names()) - {name}
      ensures r >= 0 && old(Distinct()) && DistinctHashes(old(Names()), vnodeHash) ==> MovesOnly(old(Points()), Points(), name)
    {
      hide RingOf, ToPoints, PointsOf, DistinctHashes, MovesOnly, FirstNamed, DistinctNames, ActiveNames, Ascending, StrictlyAscending;
      var found := IndexOfName(name);
      if found < 0 {
        return -2;
      }
      PointFacts();
      ghost var before, names, points := nodes[..nodeCount], Names(), Points();
      ghost var distinct := Distinct();
      if found < nodeCount - 1 {
        nodes[found] := nodes[nodeCount - 1];
      }
      nodes[nodeCount - 1] := HashNode([], false);
      nodeCount := nodeCount - 1;
      assert nodes[..nodeCount] == before[found := before[|before| - 1]][..|before| - 1];
      if distinct {
        NodeRemoved(before, nodes[..nodeCount], found);
      }
      Rebuild();
      PointFacts();
      r := nodeCount;
      if distinct && DistinctHashes(names, vnodeHash) {
        FewerDistinct(Names(), names, vnodeHash);
        MinimalMovement(points, Points(), names, name, vnodeHash);
      }
    }

    /** Takes a node out of the ring or puts it back in, keeping it in the table. */
    method SetNodeActive(name: bytes, active: bool) returns (r: int)
      requires Valid()
      modifies this, nodes, ring
      ensures Valid() && nodeCount == old(nodeCount)
      ensures r == 0 <==> exists i :: 0 <= i < nodeCount && old(nodes[i].name) == name
      ensures r != 0 ==> r == -2 && nodes[..nodeCount] == old(nodes[..nodeCount]) && Points() == old(Points())
      ensures r == 0 ==> var ns, k := old(nodes[..nodeCount]), FirstNamed(old(nodes[..nodeCount]), name);
                         nodes[..nodeCount] == ns[k := ns[k].(isActive := active)]
      ensures r == 0 && old(Distinct()) ==> Distinct() && Names() == if active then old(Names()) + {name} else old(Names()) - {name}
      ensures r == 0 && !active && old(Distinct()) && DistinctHashes(old(Names()), vnodeHash) ==>
                MovesOnly(old(Points()), Points(), name)
      ensures r == 0 && active && name !in old(Names()) && old(Distinct()) && DistinctHashes(Names(), vnodeHash) ==>
                MovesOnly(Points(), old(Points()), name)
    {
      hide RingOf, ToPoints, PointsOf, DistinctHashes, MovesOnly, FirstNamed, DistinctNames, ActiveNames, Ascending, StrictlyAscending;
      var i := IndexOfName(name);
      if i < 0 {
        return -2;
      }
      PointFacts();
      ghost var before, names, points := nodes[..nodeCount], Names(), Points();
      ghost var distinct := Distinct();
      nodes[i] := nodes[i].(isActive := active);
      assert nodes[..nodeCount] == before[i := before[i].(isActive := active)];
      if distinct {
        ActivitySet(before, i, active);
      }
      Rebuild();
      PointFacts();
      r := 0;
      if distinct && !active && DistinctHashes(names, vnodeHash) {
        FewerDistinct(Names(), names, vnodeHash);
        MinimalMovement(points, Points(), names, name, vnodeHash);
      } else if distinct && active && name !in names && DistinctHashes(Names(), vnodeHash) {
        assert Names() - {name} == names;
        FewerDistinct(names, Names(), vnodeHash);
        MinimalMovement(Points(), points, Names(), name, vnodeHash);
      }
    }

    // ---------- Lookups ----------

    /** The first ring slot whose hash is not below `h`, or the ring's size. */
    method FindSlot(h: nat) returns (lo: nat)
      requires Valid()
      ensures lo == Before(Points(), h) <= ringSize
      ensures forall i :: 0 <= i < ringSize ==> (ring[i].hash < h <==> i < lo)
    {
      hide RingOf, ToPoints, PointsOf, Before;
      PointFacts();
      ghost var ps := Points();
      lo := 0;
      var hi := ringSize - 1;
      while lo <= hi
        invariant 0 <= lo <= hi + 1 <= ringSize
        invariant forall i :: 0 <= i < lo ==> ps[i].hash < h
        invariant forall i :: hi < i < ringSize ==> ps[i].hash >= h
        decreases hi - lo
      {
        var mid := lo + (hi - lo) / 2;
        assert ps[mid].hash == ring[mid].hash;
        if ring[mid].hash < h {
          lo := mid + 1;
        } else {
          hi := mid - 1;
        }
      }
      BeforeSplits(ps, h, lo);
    }

    /** The index of the node that a key belongs to, or -1 on an empty ring. */
    method Locate(key: bytes) returns (r: int)
      requires Valid()
      ensures r == -1 <==> ringSize == 0
      ensures r != -1 ==> 0 <= r < nodeCount && Owner(Points(), keyHash(key)) == Some(nodes[r].name)
    {
      hide RingOf, ToPoints;
      if ringSize == 0 {
        return -1;
      }
      PointFacts();
      var lo := FindSlot(keyHash(key));
      var slot := if lo < ringSize then lo else 0;
      r := ring[slot].nodeIdx;
    }

    /** The distinct nodes that a clockwise walk from the key meets, at most `maxReplicas` of them. */
    method GetReplicas(key: bytes, maxReplicas: nat) returns (replicas: seq<nat>)
      requires Valid()
      ensures var ps := Points();
              replicas == FirstOf<nat>(DistinctFirst<nat>(NodesFrom(ring[..ringSize], Start(ps, keyHash(key))), {}), maxReplicas)
      ensures forall k :: 0 <= k < |replicas| ==> replicas[k] < nodeCount
      ensures Distinct() ==> Named(nodes[..nodeCount], replicas) == FirstOf(AllReplicas(Points(), keyHash(key)), maxReplicas)
    {
      hide RingOf, ToPoints, NamesOf, Clockwise, DistinctFirst, FirstOf, Ascending, PointsOf, DistinctNames, DistinctHashes, NodesFrom;
      var h := keyHash(key);
      ghost var ps, ns, c := Points(), nodes[..nodeCount], NodesFrom(ring[..ringSize], Start(Points(), h));
      PointFacts();
      replicas := [];
      if ringSize == 0 {
        WalkEnds(c, [], 0, {}, maxReplicas);
      } else {
        var lo := FindSlot(h);
        replicas := Walk(if lo < ringSize then lo else 0, maxReplicas);
      }
      hide Before, Start, AllReplicas;
      WalkNames(ns, ring[..ringSize], ps, h);
      FirstMembers(c, maxReplicas, |ns|);
      assert replicas == FirstOf<nat>(DistinctFirst<nat>(c, {}), maxReplicas);
      if Distinct() {
        NamedWalk(ns, c, maxReplicas);
        ReplicasAre(ps, h);
      }
    }

    /** Collects the distinct nodes from a slot on. */
    method Walk(start: nat, maxReplicas: nat) returns (replicas: seq<nat>)
      requires Shape() && start < ringSize && forall i :: 0 <= i < ringSize ==> ring[i].nodeIdx < nodeCount
      ensures replicas == FirstOf<nat>(DistinctFirst<nat>(NodesFrom(ring[..ringSize], start), {}), maxReplicas)
    {
      hide DistinctFirst, FirstOf;
      replicas := [];
      ghost var c, seenNodes: set<nat> := NodesFrom(ring[..ringSize], start), {};
      ghost var all := DistinctFirst<nat>(c, {});
      assert c[0..] == c && replicas + all == all;
      var seen := new bool[MAX_NODES](_ => false);
      var i := 0;
      while i < ringSize && |replicas| < maxReplicas
        invariant 0 <= i <= ringSize && |replicas| <= maxReplicas
        invariant all == replicas + DistinctFirst<nat>(c[i..], seenNodes)
        invariant forall n :: 0 <= n < MAX_NODES ==> (seen[n] <==> n in seenNodes)
      {
        var slot := (start + i) % ringSize;
        var nidx := ring[slot].nodeIdx;
        assert nidx == c[i];
        WalkStep(c, i, seenNodes, replicas);
        if !seen[nidx] {
          seen[nidx] := true;
          replicas := replicas + [nidx];
          seenNodes := seenNodes + {nidx};
        }
        i := i + 1;
      }
      WalkEnds(c, replicas, i, seenNodes, maxReplicas);
    }
  }

  /** The part of a node's name that the table holds. */
  function Stored(name: bytes): (stored: bytes)
    ensures stored <= name && |stored| == if |name| < 64 then |name| else 63
  {
    if |name| < NAME_SIZE then name else name[..NAME_SIZE - 1]
  }

  /** The index of the first node with the name, or -1. */
  function FirstNamed(ns: seq<HashNode>, name: bytes): (k: int)
    ensures -1 <= k < |ns| && (k >= 0 ==> ns[k].name == name)
    ensures forall i :: 0 <= i < (if k < 0 then |ns| else k) ==> ns[i].name != name
  {
    if ns == [] then -1
    else
      var k := FirstNamed(ns[..|ns| - 1], name);
      if k >= 0 then k else if ns[|ns| - 1].name == name then |ns| - 1 else -1
  }

  /** The slot where a walk from a hash begins. */
  function Start(ps: seq<Point>, h: nat): nat {
    if Before(ps, h) < |ps| then Before(ps, h) else 0
  }

  /** The node indices on the way round the ring. */
  function NodesFrom(ring: seq<VNode>, start: nat): (c: seq<nat>)
    ensures |c| == |ring|
  {
    seq<nat>(|ring|, i requires 0 <= i < |ring| => ring[(start + i) % |ring|].nodeIdx)
  }

  function Named(ns: seq<HashNode>, c: seq<nat>): (names: seq<bytes>)
    requires forall i :: 0 <= i < |c| ==> c[i] < |ns|
    ensures |names| == |c| && forall i :: 0 <= i < |c| ==> names[i] == ns[c[i]].name
  {
    seq(|c|, i requires 0 <= i < |c| => ns[c[i]].name)
  }

  /** A name of 64 bytes or more is never found in the table: adding it twice makes two nodes of one name. */
  method LongNameTwice(vnodeHash: VNodeHash, keyHash: bytes -> nat, name: bytes)
    returns (hashRing: HashRing, first: int, second: int)
    requires |name| >= NAME_SIZE
    ensures first == 1 && second == 2 && hashRing.Valid() && !hashRing.Distinct()
    ensures hashRing.nodes[..hashRing.nodeCount] == [HashNode(Stored(name), true), HashNode(Stored(name), true)]
  {
    hide RingOf, MovesOnly, DistinctHashes, DistinctNames, ActiveNames, ToPoints, PointsOf, Ascending, StrictlyAscending, FirstNamed, Stored;
    hashRing := new HashRing(vnodeHash, keyHash);
    assert hashRing.nodes[..hashRing.nodeCount] == [];
    first := AddLong(hashRing, name);
    second := AddLong(hashRing, name);
    SameName(hashRing.nodes[..hashRing.nodeCount], HashNode(Stored(name), true));
  }

  /** A name that is too long for the table is not found in it, however often it was added. */
  method AddLong(hashRing: HashRing, name: bytes) returns (r: int)
    requires hashRing.Valid() && hashRing.nodeCount < MAX_NODES && |name| >= NAME_SIZE
    modifies hashRing, hashRing.nodes, hashRing.ring
    ensures hashRing.Valid() && r == hashRing.nodeCount == old(hashRing.nodeCount) + 1
    ensures hashRing.nodes[..hashRing.nodeCount] == old(hashRing.nodes[..hashRing.nodeCount]) + [HashNode(Stored(name), true)]
  {
    hide RingOf, MovesOnly, DistinctHashes, DistinctNames, ActiveNames, ToPoints, PointsOf, Ascending, StrictlyAscending, FirstNamed, Stored;
    r := hashRing.AddNode(name);
  }

  lemma SameName(ns: seq<HashNode>, node: HashNode)
    requires ns == [node, node]
    ensures !DistinctNames(ns)
  {
    assert ns[0].name == ns[1].name;
  }

  // ---------- The walk ----------

  lemma {:induction false} DistinctMembers<T>(c: seq<T>, seen: set<T>)
    ensures forall x :: x in DistinctFirst(c, seen) ==> x in c
  {
    if c != [] {
      DistinctMembers(c[1..], if c[0] in seen then seen else seen + {c[0]});
    }
  }

  lemma FirstMembers(c: seq<nat>, max: nat, n: nat)
    requires forall i :: 0 <= i < |c| ==> c[i] < n
    ensures var first := FirstOf<nat>(DistinctFirst<nat>(c, {}), max); forall i :: 0 <= i < |first| ==> first[i] < n
  {
    var first := FirstOf<nat>(DistinctFirst<nat>(c, {}), max);
    DistinctMembers<nat>(c, {});
    forall i | 0 <= i < |first|
      ensures first[i] < n
    {
      assert first[i] in DistinctFirst<nat>(c, {});
    }
  }

  /** With distinct names the first distinct nodes of a walk have the first distinct names. */
  lemma {:induction false} DistinctNamed(ns: seq<HashNode>, c: seq<nat>, seen: set<nat>, names: set<bytes>)
    requires DistinctNames(ns) && forall i :: 0 <= i < |c| ==> c[i] < |ns|
    requires forall n :: 0 <= n < |ns| ==> (n in seen <==> ns[n].name in names)
    ensures var first := DistinctFirst<nat>(c, seen);
            (forall i :: 0 <= i < |first| ==> first[i] < |ns|) && Named(ns, first) == DistinctFirst(Named(ns, c), names)
  {
    DistinctMembers<nat>(c, seen);
    ghost var first := DistinctFirst<nat>(c, seen);
    assert forall i :: 0 <= i < |first| ==> first[i] in first;
    if c != [] {
      var name := ns[c[0]].name;
      assert Named(ns, c)[1..] == Named(ns, c[1..]);
      if c[0] in seen {
        DistinctNamed(ns, c[1..], seen, names);
      } else {
        DistinctNamed(ns, c[1..], seen + {c[0]}, names + {name});
      }
    }
  }

  lemma NamedWalk(ns: seq<HashNode>, c: seq<nat>, max: nat)
    requires DistinctNames(ns) && forall i :: 0 <= i < |c| ==> c[i] < |ns|
    ensures var first := FirstOf<nat>(DistinctFirst<nat>(c, {}), max);
            && (forall i :: 0 <= i < |first| ==> first[i] < |ns|)
            && Named(ns, first) == FirstOf(DistinctFirst(Named(ns, c), {}), max)
  {
    DistinctNamed(ns, c, {}, {});
  }

  lemma ReplicasAre(ps: seq<Point>, h: nat)
    ensures AllReplicas(ps, h) == DistinctFirst(NamesOf(Clockwise(ps, h)), {})
  {
  }

  /** The nodes of a walk have the names of the points on the way. */
  lemma WalkNames(ns: seq<HashNode>, ring: seq<VNode>, ps: seq<Point>, h: nat)
    requires |ps| == |ring|
    requires forall i :: 0 <= i < |ring| ==> ring[i].nodeIdx < |ns| && ps[i].name == ns[ring[i].nodeIdx].name
    ensures var c := NodesFrom(ring, Start(ps, h));
            (forall i :: 0 <= i < |c| ==> c[i] < |ns|) && Named(ns, c) == NamesOf(Clockwise(ps, h))
  {
    hide NamesOf, Clockwise, Before;
    var c := NodesFrom(ring, Start(ps, h));
    ClockwiseLength(ps, h);
    forall i | 0 <= i < |c|
      ensures c[i] < |ns| && ns[c[i]].name == NamesOf(Clockwise(ps, h))[i]
    {
      ClockwiseAt(ps, h, i);
    }
  }

  lemma ClockwiseLength(ps: seq<Point>, h: nat)
    ensures |Clockwise(ps, h)| == |ps|
  {
  }

  lemma NameAdded(ns: seq<HashNode>, name: bytes)
    ensures DistinctNames(ns + [HashNode(name, true)]) <==> DistinctNames(ns) && FirstNamed(ns, name) < 0
    ensures ActiveNames(ns + [HashNode(name, true)]) == ActiveNames(ns) + {name}
    ensures FirstNamed(ns, name) < 0 ==> name !in ActiveNames(ns)
  {
    hide FirstNamed, DistinctNames;
    var ns' := ns + [HashNode(name, true)];
    StaysDistinct(ns, HashNode(name, true));
    forall a | a in ActiveNames(ns) + {name}
      ensures a in ActiveNames(ns')
    {
      if a == name {
        assert ns'[|ns|].isActive && ns'[|ns|].name == a;
      } else {
        var i :| 0 <= i < |ns| && ns[i].isActive && ns[i].name == a;
        assert ns'[i].isActive && ns'[i].name == a;
      }
    }
  }

  lemma StaysDistinct(ns: seq<HashNode>, node: HashNode)
    ensures DistinctNames(ns + [node]) <==> DistinctNames(ns) && FirstNamed(ns, node.name) < 0
  {
    hide FirstNamed;
    var ns' := ns + [node];
    if DistinctNames(ns') {
      forall i | 0 <= i < |ns|
        ensures ns[i].name != node.name
      {
        assert ns'[i].name != ns'[|ns|].name;
      }
      forall i, j | 0 <= i < j < |ns|
        ensures ns[i].name != ns[j].name
      {
        assert ns'[i].name != ns'[j].name;
      }
    }
  }

  lemma NodeRemoved(before: seq<HashNode>, after: seq<HashNode>, k: nat)
    requires DistinctNames(before) && k < |before| && |after| == |before| - 1
    requires forall i :: 0 <= i < |after| ==> after[i] == if i == k then before[|before| - 1] else before[i]
    ensures DistinctNames(after) && ActiveNames(after) == ActiveNames(before) - {before[k].name}
  {
    var name := before[k].name;
    forall a | a in ActiveNames(before) - {name}
      ensures a in ActiveNames(after)
    {
      var i :| 0 <= i < |before| && before[i].isActive && before[i].name == a;
      var i' := if i == |before| - 1 then k else i;
      assert after[i'].isActive && after[i'].name == a;
    }
    forall a | a in ActiveNames(after)
      ensures a in ActiveNames(before) - {name}
    {
      var i :| 0 <= i < |after| && after[i].isActive && after[i].name == a;
      var i' := if i == k then |before| - 1 else i;
      assert before[i'].isActive && before[i'].name == a && i' != k;
    }
  }

  lemma ActivitySet(ns: seq<HashNode>, k: nat, active: bool)
    requires DistinctNames(ns) && k < |ns|
    ensures var ns' := ns[k := ns[k].(isActive := active)];
            DistinctNames(ns') && ActiveNames(ns') == if active then ActiveNames(ns) + {ns[k].name} else ActiveNames(ns) - {ns[k].name}
  {
    var ns' := ns[k := ns[k].(isActive := active)];
    forall a: bytes
      ensures a != ns[k].name ==> (a in ActiveNames(ns') <==> a in ActiveNames(ns))
      ensures ns[k].name in ActiveNames(ns') <==> active
    {
      if i :| 0 <= i < |ns| && ns[i].isActive && ns[i].name == a && i != k {
        assert ns'[i].isActive && ns'[i].name == a;
      }
      if i :| 0 <= i < |ns'| && ns'[i].isActive && ns'[i].name == a && i != k {
        assert ns[i].isActive && ns[i].name == a;
      }
      if active {
        assert ns'[k].isActive && ns'[k].name == ns[k].name;
      }
    }
  }

  lemma Wrap(a: nat, n: nat)
    requires a < 2 * n
    ensures a % n == if a < n then a else a - n
  {
  }

  /** The name of the `i`-th point of a clockwise walk, by its slot. */
  lemma ClockwiseAt(ps: seq<Point>, h: nat, i: nat)
    requires i < |ps|
    ensures var start := if Before(ps, h) < |ps| then Before(ps, h) else 0;
            (start + i) % |ps| < |ps| && NamesOf(Clockwise(ps, h))[i] == ps[(start + i) % |ps|].name
  {
    hide Before;
    var start := if Before(ps, h) < |ps| then Before(ps, h) else 0;
    Wrap(start + i, |ps|);
  }

  /** The walk takes up a node that it has not seen, and passes one that it has. */
  lemma WalkStep(c: seq<nat>, i: nat, seen: set<nat>, taken: seq<nat>)
    requires i < |c|
    ensures taken + DistinctFirst<nat>(c[i..], seen) ==
            if c[i] in seen then taken + DistinctFirst<nat>(c[i + 1..], seen)
            else (taken + [c[i]]) + DistinctFirst<nat>(c[i + 1..], seen + {c[i]})
  {
    assert c[i..][0] == c[i] && c[i..][1..] == c[i + 1..];
  }

  lemma WalkEnds(c: seq<nat>, taken: seq<nat>, i: nat, seen: set<nat>, max: nat)
    requires i <= |c| && DistinctFirst<nat>(c, {}) == taken + DistinctFirst<nat>(c[i..], seen)
    requires |taken| <= max && (i == |c| || |taken| == max)
    ensures FirstOf<nat>(DistinctFirst<nat>(c, {}), max) == taken
  {
    if i == |c| {
      assert DistinctFirst<nat>(c[i..], seen) == [];
    }
  }

  lemma FewerDistinct(few: set<bytes>, many: set<bytes>, vh: VNodeHash)
    requires few <= many && DistinctHashes(many, vh)
    ensures DistinctHashes(few, vh)
  {
  }
}
