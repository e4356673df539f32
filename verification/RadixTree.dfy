/**
 The segment tree of the router: `insert` and the backtracking `match_path`, as values.
 The reference semantics is a linear scan over the registered patterns.
 */
module RadixTree {
  import opened Prelude

  /** Capacity of the stack-allocated parameter accumulator. */
  const MAX_STACK_SEGMENTS: nat := 16

  datatype Segment = Static(value: string) | Param

  type Pattern = seq<Segment>

  datatype Tree<S> = Node(children: seq<Child<S>>, handler: Option<S>, param: Option<Tree<S>>)

  datatype Child<S> = Child(segment: string, node: Tree<S>)

  datatype Route<S> = Route(pattern: Pattern, spec: S)

  /** What a match attempt ends in; `Panic` is the accumulator overflowing its 16 slots. */
  datatype Outcome<+S> = Found(spec: S, values: seq<string>) | NotFound | Panic

  function Empty<S>(): Tree<S> {
    Node([], None, None)
  }

  // ----- insert -----

  /** Position of the first child labelled `segment`, or the number of children. */
  function ChildIndex<S>(children: seq<Child<S>>, segment: string): (i: nat)
    ensures i <= |children|
    ensures i < |children| ==> children[i].segment == segment
    ensures forall j | 0 <= j < i :: children[j].segment != segment
  {
    if children == [] then 0
    else if children[0].segment == segment then 0
    else 1 + ChildIndex(children[1..], segment)
  }

  function Insert<S>(t: Tree<S>, pattern: Pattern, spec: S): Tree<S>
    decreases |pattern|
  {
    if pattern == [] then t.(handler := Some(spec))
    else match pattern[0]
      case Static(value) =>
        var i := ChildIndex(t.children, value);
        if i < |t.children| then
          t.(children := t.children[i := Child(value, Insert(t.children[i].node, pattern[1..], spec))])
        else
          t.(children := t.children + [Child(value, Insert(Empty(), pattern[1..], spec))])
      case Param =>
        var below := if t.param.Some? then t.param.value else Empty();
        t.(param := Some(Insert(below, pattern[1..], spec)))
  }

  /** Registration order is list order. */
  function Build<S>(routes: seq<Route<S>>): Tree<S> {
    if routes == [] then Empty()
    else
      var last := routes[|routes| - 1];
      Insert(Build(routes[..|routes| - 1]), last.pattern, last.spec)
  }

  // ----- match_path -----

  function Match<S>(t: Tree<S>, segments: seq<string>, acc: seq<string>): Outcome<S>
    decreases t, 1, 0
  {
    if segments == [] then
      if t.handler.Some? then Found(t.handler.value, acc) else NotFound
    else
      var r := MatchChildren(t, 0, segments, acc);
      if r != NotFound then r
      else if t.param.None? then NotFound
      else if |acc| >= MAX_STACK_SEGMENTS then Panic
      else Match(t.param.value, segments[1..], acc + [segments[0]])
  }

  /** The loop over static children from position `i` on. */
  function MatchChildren<S>(t: Tree<S>, i: nat, segments: seq<string>, acc: seq<string>): Outcome<S>
    requires i <= |t.children| && segments != []
    decreases t, 0, |t.children| - i
  {
    if i == |t.children| then NotFound
    else
      var r := if t.children[i].segment == segments[0]
               then Match(t.children[i].node, segments[1..], acc) else NotFound;
      if r != NotFound then r else MatchChildren(t, i + 1, segments, acc)
  }

  // ----- reference semantics -----

  predicate Matches(pattern: Pattern, segments: seq<string>) {
    && |pattern| == |segments|
    && forall i | 0 <= i < |pattern| :: pattern[i].Static? ==> pattern[i].value == segments[i]
  }

  /** The segments standing at parameter positions. */
  function Captures(pattern: Pattern, segments: seq<string>): seq<string>
    requires |pattern| == |segments|
  {
    if pattern == [] then []
    else (if pattern[0].Param? then [segments[0]] else []) + Captures(pattern[1..], segments[1..])
  }

  function ParamCount(pattern: Pattern): nat {
    if pattern == [] then 0 else (if pattern[0].Param? then 1 else 0) + ParamCount(pattern[1..])
  }

  /** `p` comes no later than `q` in the order static before param, left to right. */
  predicate NoWorse(p: Pattern, q: Pattern)
    requires |p| == |q|
  {
    || p == []
    || (p[0] == q[0] && NoWorse(p[1..], q[1..]))
    || (p[0].Static? && q[0].Param?)
  }

  /** Linear scan that keeps the best matching route so far; a later route wins ties. */
  function Scan<S>(routes: seq<Route<S>>, segments: seq<string>): (r: Option<nat>)
    ensures r.Some? ==> r.value < |routes| && Matches(routes[r.value].pattern, segments)
  {
    if routes == [] then None
    else
      var n := |routes| - 1;
      var best := Scan(routes[..n], segments);
      if Matches(routes[n].pattern, segments)
         && (best.None? || NoWorse(routes[n].pattern, routes[best.value].pattern))
      then Some(n)
      else best
  }

  function ScanOutcome<S>(routes: seq<Route<S>>, segments: seq<string>): Outcome<S> {
    var best := Scan(routes, segments);
    if best.None? then NotFound
    else Found(routes[best.value].spec, Captures(routes[best.value].pattern, segments))
  }

  lemma {:induction false} NoWorseReflexive(p: Pattern)
    ensures NoWorse(p, p)
  {
    if p != [] { NoWorseReflexive(p[1..]); }
  }

  lemma {:induction false} NoWorseTransitive(p: Pattern, q: Pattern, r: Pattern)
    requires |p| == |q| == |r|
    requires NoWorse(p, q) && NoWorse(q, r)
    ensures NoWorse(p, r)
  {
    if p != [] && p[0] == q[0] == r[0] { NoWorseTransitive(p[1..], q[1..], r[1..]); }
  }

  /** Among patterns matching the same request the order is total and antisymmetric. */
  lemma {:induction false} NoWorseTotal(p: Pattern, q: Pattern, segments: seq<string>)
    requires Matches(p, segments) && Matches(q, segments)
    ensures NoWorse(p, q) || NoWorse(q, p)
    ensures NoWorse(p, q) && NoWorse(q, p) ==> p == q
  {
    if p != [] {
      assert p == [p[0]] + p[1..] && q == [q[0]] + q[1..];
      NoWorseTotal(p[1..], q[1..], segments[1..]);
    }
  }

  /** The scan returns the best matching route, the latest one among equals. */
  lemma {:induction false} ScanIsBest<S>(routes: seq<Route<S>>, segments: seq<string>)
    ensures Scan(routes, segments).Some? <==>
            exists j | 0 <= j < |routes| :: Matches(routes[j].pattern, segments)
    ensures Scan(routes, segments).Some? ==>
              var i := Scan(routes, segments).value;
              forall j | 0 <= j < |routes| && Matches(routes[j].pattern, segments) ::
                && NoWorse(routes[i].pattern, routes[j].pattern)
                && (routes[j].pattern == routes[i].pattern ==> j <= i)
  {
    if routes != [] {
      var n := |routes| - 1;
      var init := routes[..n];
      ScanIsBest(init, segments);
      forall j | 0 <= j < |routes| ensures j < n ==> init[j] == routes[j] {}
      var best := Scan(init, segments);
      if best.Some? {
        assert Matches(routes[best.value].pattern, segments);
      }
      if Matches(routes[n].pattern, segments) {
        NoWorseReflexive(routes[n].pattern);
        if best.Some? {
          NoWorseTotal(routes[n].pattern, routes[best.value].pattern, segments);
          if NoWorse(routes[n].pattern, routes[best.value].pattern) {
            forall j | 0 <= j < n && Matches(routes[j].pattern, segments)
              ensures NoWorse(routes[n].pattern, routes[j].pattern)
            {
              NoWorseTransitive(routes[n].pattern, routes[best.value].pattern, init[j].pattern);
            }
          }
        }
      }
    }
  }

  // ----- the tree as a finite map from patterns -----

  /** No two siblings carry the same static label. */
  predicate WellFormed<S>(t: Tree<S>) {
    && (forall i, j | 0 <= i < j < |t.children| :: t.children[i].segment != t.children[j].segment)
    && (forall i | 0 <= i < |t.children| :: WellFormed(t.children[i].node))
    && (t.param.Some? ==> WellFormed(t.param.value))
  }

  function Lookup<S>(t: Tree<S>, pattern: Pattern): Option<S>
    decreases |pattern|
  {
    if pattern == [] then t.handler
    else match pattern[0]
      case Static(value) =>
        var i := ChildIndex(t.children, value);
        if i < |t.children| then Lookup(t.children[i].node, pattern[1..]) else None
      case Param =>
        if t.param.Some? then Lookup(t.param.value, pattern[1..]) else None
  }

  lemma {:induction false} InsertWellFormed<S>(t: Tree<S>, pattern: Pattern, spec: S)
    requires WellFormed(t)
    ensures WellFormed(Insert(t, pattern, spec))
    decreases |pattern|
  {
    if pattern != [] {
      match pattern[0]
      case Static(value) =>
        var i := ChildIndex(t.children, value);
        InsertWellFormed(if i < |t.children| then t.children[i].node else Empty(), pattern[1..], spec);
      case Param =>
        InsertWellFormed(if t.param.Some? then t.param.value else Empty(), pattern[1..], spec);
    }
  }

  /** Insertion is a map update: it binds its own pattern and no other. */
  lemma {:induction false} InsertLookup<S>(t: Tree<S>, p: Pattern, spec: S, q: Pattern)
    requires WellFormed(t)
    ensures Lookup(Insert(t, p, spec), q) == if p == q then Some(spec) else Lookup(t, q)
    decreases |p|
  {
    if p != [] && q != [] && p[0] == q[0] {
      assert p == q <==> p[1..] == q[1..] by {
        assert p == [p[0]] + p[1..] && q == [q[0]] + q[1..];
      }
      EmptyLookup<S>(q[1..]);
      match p[0]
      case Static(value) =>
        InsertStatic(t, p, spec);
        InsertLookup(ChildNode(t, value), p[1..], spec, q[1..]);
      case Param =>
        InsertLookup(if t.param.Some? then t.param.value else Empty(), p[1..], spec, q[1..]);
    } else if p != [] && q != [] && p[0].Static? && q[0].Static? {
      InsertBeside(t, p, spec, q[0].value);
    }
  }

  /** The child labelled `value`, or a new one. */
  function ChildNode<S>(t: Tree<S>, value: string): Tree<S> {
    var i := ChildIndex(t.children, value);
    if i < |t.children| then t.children[i].node else Empty()
  }

  lemma {:induction false} InsertStatic<S>(t: Tree<S>, p: Pattern, spec: S)
    requires p != [] && p[0].Static?
    ensures var i, u := ChildIndex(t.children, p[0].value), Insert(t, p, spec);
            && ChildIndex(u.children, p[0].value) == i < |u.children|
            && u.children[i].node == Insert(ChildNode(t, p[0].value), p[1..], spec)
  {
    var i, u := ChildIndex(t.children, p[0].value), Insert(t, p, spec);
    assert u.children[i] == Child(p[0].value, Insert(ChildNode(t, p[0].value), p[1..], spec));
    assert forall x | 0 <= x < |t.children| :: u.children[x].segment == t.children[x].segment;
  }

  lemma {:induction false} InsertBeside<S>(t: Tree<S>, p: Pattern, spec: S, other: string)
    requires p != [] && p[0].Static? && p[0].value != other
    ensures var i, u := ChildIndex(t.children, other), Insert(t, p, spec);
            if i < |t.children| then ChildIndex(u.children, other) == i && u.children[i] == t.children[i]
            else ChildIndex(u.children, other) == |u.children|
  {
    var u := Insert(t, p, spec);
    assert forall x | 0 <= x < |t.children| :: u.children[x].segment == t.children[x].segment;
  }

  lemma {:induction false} EmptyLookup<S>(q: Pattern)
    ensures Lookup(Empty<S>(), q) == None
  {}

  /** Specification registered last for `q`. */
  function LastSpec<S>(routes: seq<Route<S>>, q: Pattern): Option<S> {
    if routes == [] then None
    else if routes[|routes| - 1].pattern == q then Some(routes[|routes| - 1].spec)
    else LastSpec(routes[..|routes| - 1], q)
  }

  lemma {:induction false} BuildLookup<S>(routes: seq<Route<S>>, q: Pattern)
    ensures WellFormed(Build(routes))
    ensures Lookup(Build(routes), q) == LastSpec(routes, q)
  {
    if routes == [] {
      EmptyLookup<S>(q);
    } else {
      var n := |routes| - 1;
      BuildLookup(routes[..n], q);
      InsertWellFormed(Build(routes[..n]), routes[n].pattern, routes[n].spec);
      InsertLookup(Build(routes[..n]), routes[n].pattern, routes[n].spec, q);
    }
  }

  lemma {:induction false} LastSpecAt<S>(routes: seq<Route<S>>, i: nat)
    requires i < |routes|
    requires forall j | i < j < |routes| :: routes[j].pattern != routes[i].pattern
    ensures LastSpec(routes, routes[i].pattern) == Some(routes[i].spec)
  {
    if i < |routes| - 1 { LastSpecAt(routes[..|routes| - 1], i); }
  }

  lemma {:induction false} LastSpecRegistered<S>(routes: seq<Route<S>>, q: Pattern) returns (i: nat)
    requires LastSpec(routes, q).Some?
    ensures i < |routes| && routes[i].pattern == q
  {
    var n := |routes| - 1;
    if routes[n].pattern == q { i := n; } else { i := LastSpecRegistered(routes[..n], q); }
  }

  // ----- correctness of the search -----

  /** No path through the tree has more than `d` parameter edges. */
  predicate DepthAtMost<S>(t: Tree<S>, d: nat) {
    && (forall i | 0 <= i < |t.children| :: DepthAtMost(t.children[i].node, d))
    && (t.param.Some? ==> d > 0 && DepthAtMost(t.param.value, d - 1))
  }

  /** `q` is bound in `t` and matches the request. */
  predicate Candidate<S>(t: Tree<S>, segments: seq<string>, q: Pattern) {
    Lookup(t, q).Some? && Matches(q, segments)
  }

  /** `q` is the best candidate, and `o` reports its specification and its captures after `acc`. */
  ghost predicate Reports<S>(o: Outcome<S>, t: Tree<S>, segments: seq<string>, acc: seq<string>, q: Pattern) {
    && Candidate(t, segments, q)
    && o == Found(Lookup(t, q).value, acc + Captures(q, segments))
    && forall p: Pattern :: Candidate(t, segments, p) ==> NoWorse(q, p)
  }

  /** The static loop is the search in the one child with the right label. */
  lemma {:induction false} MatchChildrenIs<S>(t: Tree<S>, i: nat, segments: seq<string>, acc: seq<string>)
    requires i <= |t.children| && segments != [] && WellFormed(t)
    ensures var k := ChildIndex(t.children, segments[0]);
            MatchChildren(t, i, segments, acc)
            == if i <= k < |t.children| then Match(t.children[k].node, segments[1..], acc) else NotFound
    decreases |t.children| - i
  {
    if i < |t.children| { MatchChildrenIs(t, i + 1, segments, acc); }
  }

  /** A candidate below an edge is a candidate here, with the edge in front. */
  lemma CandidateDown<S>(t: Tree<S>, segments: seq<string>, q: Pattern)
    requires segments != [] && Candidate(t, segments, q)
    ensures q != []
    ensures q[0].Static? ==>
              var k := ChildIndex(t.children, segments[0]);
              k < |t.children| && Candidate(t.children[k].node, segments[1..], q[1..])
    ensures q[0].Param? ==> t.param.Some? && Candidate(t.param.value, segments[1..], q[1..])
  {}

  lemma {:induction false} CandidateUp<S>(t: Tree<S>, segments: seq<string>, edge: Segment, q: Pattern)
    requires segments != []
    requires match edge
             case Static(v) =>
               && v == segments[0] && ChildIndex(t.children, v) < |t.children|
               && Candidate(t.children[ChildIndex(t.children, v)].node, segments[1..], q)
             case Param => t.param.Some? && Candidate(t.param.value, segments[1..], q)
    ensures Candidate(t, segments, [edge] + q)
    ensures Captures([edge] + q, segments)
            == (if edge.Param? then [segments[0]] else []) + Captures(q, segments[1..])
  {
    assert ([edge] + q)[1..] == q;
    forall i | 0 <= i < |q| + 1
      ensures ([edge] + q)[i].Static? ==> ([edge] + q)[i].value == segments[i]
    {
      if i > 0 { assert q[i - 1].Static? ==> q[i - 1].value == segments[1..][i - 1]; }
    }
  }

  /** `o` is what the reference semantics of `t` prescribes for the request. */
  ghost predicate IsBest<S>(o: Outcome<S>, t: Tree<S>, segments: seq<string>, acc: seq<string>) {
    && o != Panic
    && (o.Found? ==> exists q :: Reports(o, t, segments, acc, q))
    && (o.NotFound? ==> forall q :: !Candidate(t, segments, q))
  }

  lemma BestThroughStatic<S>(t: Tree<S>, segments: seq<string>, acc: seq<string>, o: Outcome<S>)
    requires segments != [] && ChildIndex(t.children, segments[0]) < |t.children|
    requires o.Found? && IsBest(o, t.children[ChildIndex(t.children, segments[0])].node, segments[1..], acc)
    ensures IsBest(o, t, segments, acc)
  {
    var below := t.children[ChildIndex(t.children, segments[0])].node;
    var q :| Reports(o, below, segments[1..], acc, q);
    var full := [Static(segments[0])] + q;
    assert full[1..] == q;
    CandidateUp(t, segments, Static(segments[0]), q);
    forall p: Pattern | Candidate(t, segments, p) ensures NoWorse(full, p) {
      CandidateDown(t, segments, p);
    }
    assert acc + Captures(full, segments) == acc + Captures(q, segments[1..]);
    assert Reports(o, t, segments, acc, full);
  }

  lemma BestThroughParam<S>(t: Tree<S>, segments: seq<string>, acc: seq<string>, o: Outcome<S>)
    requires segments != [] && t.param.Some?
    requires IsBest(o, t.param.value, segments[1..], acc + [segments[0]])
    requires forall p: Pattern :: Candidate(t, segments, p) ==> p != [] && p[0].Param?
    ensures IsBest(o, t, segments, acc)
  {
    if o.Found? {
      var q :| Reports(o, t.param.value, segments[1..], acc + [segments[0]], q);
      var full := [Param] + q;
      assert full[1..] == q;
      CandidateUp(t, segments, Param, q);
      forall p: Pattern | Candidate(t, segments, p) ensures NoWorse(full, p) {
        CandidateDown(t, segments, p);
      }
      assert acc + Captures(full, segments) == acc + [segments[0]] + Captures(q, segments[1..]);
      assert Reports(o, t, segments, acc, full);
    } else {
      forall p ensures !Candidate(t, segments, p) {
        if Candidate(t, segments, p) { CandidateDown(t, segments, p); }
      }
    }
  }

  /** With no match below the static edge, every candidate starts with a parameter. */
  lemma NoStaticCandidate<S>(t: Tree<S>, segments: seq<string>)
    requires segments != []
    requires var k := ChildIndex(t.children, segments[0]);
             k < |t.children| ==> forall q :: !Candidate(t.children[k].node, segments[1..], q)
    ensures forall p: Pattern :: Candidate(t, segments, p) ==> p != [] && p[0].Param?
  {
    forall p: Pattern | Candidate(t, segments, p) ensures p != [] && p[0].Param? {
      CandidateDown(t, segments, p);
    }
  }

  /**
   The search, started with room for every parameter on the way, finds the best candidate and
   appends exactly its captures; it fails only if there is no candidate.
   */
  lemma {:induction false} MatchIsBest<S>(t: Tree<S>, segments: seq<string>, acc: seq<string>)
    requires WellFormed(t)
    requires |acc| <= MAX_STACK_SEGMENTS && DepthAtMost(t, MAX_STACK_SEGMENTS - |acc|)
    ensures IsBest(Match(t, segments, acc), t, segments, acc)
    decreases |segments|
  {
    if segments == [] {
      MatchHere(t, acc);
      return;
    }
    MatchChildrenIs(t, 0, segments, acc);
    var k := ChildIndex(t.children, segments[0]);
    if k < |t.children| {
      MatchIsBest(t.children[k].node, segments[1..], acc);
      if Match(t.children[k].node, segments[1..], acc).Found? {
        BestThroughStatic(t, segments, acc, Match(t, segments, acc));
        return;
      }
    }
    NoStaticCandidate(t, segments);
    if t.param.Some? {
      MatchIsBest(t.param.value, segments[1..], acc + [segments[0]]);
      BestThroughParam(t, segments, acc, Match(t, segments, acc));
    } else {
      forall p ensures !Candidate(t, segments, p) {
        if Candidate(t, segments, p) { CandidateDown(t, segments, p); }
      }
    }
  }

  lemma {:induction false} MatchHere<S>(t: Tree<S>, acc: seq<string>)
    ensures IsBest(Match(t, [], acc), t, [], acc)
  {
    if t.handler.Some? {
      assert acc + Captures([], []) == acc;
      assert Reports(Match(t, [], acc), t, [], acc, []);
    }
  }

  // ----- the whole router -----

  predicate ParamsFit<S>(routes: seq<Route<S>>) {
    forall i | 0 <= i < |routes| :: ParamCount(routes[i].pattern) <= MAX_STACK_SEGMENTS
  }

  lemma {:induction false} InsertDepth<S>(t: Tree<S>, p: Pattern, spec: S, d: nat)
    requires DepthAtMost(t, d) && ParamCount(p) <= d
    ensures DepthAtMost(Insert(t, p, spec), d)
    decreases |p|
  {
    if p != [] {
      match p[0]
      case Static(value) =>
        var i := ChildIndex(t.children, value);
        InsertDepth(if i < |t.children| then t.children[i].node else Empty(), p[1..], spec, d);
      case Param =>
        InsertDepth(if t.param.Some? then t.param.value else Empty(), p[1..], spec, d - 1);
    }
  }

  lemma {:induction false} BuildDepth<S>(routes: seq<Route<S>>)
    requires ParamsFit(routes)
    ensures DepthAtMost(Build(routes), MAX_STACK_SEGMENTS)
  {
    if routes != [] {
      var n := |routes| - 1;
      BuildDepth(routes[..n]);
      InsertDepth(Build(routes[..n]), routes[n].pattern, routes[n].spec, MAX_STACK_SEGMENTS);
    }
  }

  /** The tree search agrees with the linear scan, for every registration order and every request. */
  lemma {:induction false} RouterIsScan<S>(routes: seq<Route<S>>, segments: seq<string>)
    requires ParamsFit(routes)
    ensures Match(Build(routes), segments, []) == ScanOutcome(routes, segments)
  {
    var t := Build(routes);
    var o := Match(t, segments, []);
    BuildDepth(routes);
    BuildLookup(routes, []);
    MatchIsBest(t, segments, []);
    ScanIsBest(routes, segments);
    var best := Scan(routes, segments);
    if best.Some? {
      var p := routes[best.value].pattern;
      LastSpecAt(routes, best.value);
      BuildLookup(routes, p);
      assert Candidate(t, segments, p);
      var q :| Reports(o, t, segments, [], q);
      BuildLookup(routes, q);
      var i := LastSpecRegistered(routes, q);
      NoWorseTotal(p, q, segments);
    } else if o.Found? {
      var q :| Reports(o, t, segments, [], q);
      BuildLookup(routes, q);
      var i := LastSpecRegistered(routes, q);
      assert false;
    }
  }

  /** A label longer than, hence different from, every label in `children`. */
  function FreshLabel<S>(children: seq<Child<S>>): (name: string)
    ensures name != ""
    ensures forall i | 0 <= i < |children| :: |children[i].segment| < |name|
  {
    if children == [] then "x" else "x" + children[0].segment + FreshLabel(children[1..])
  }

  /** A registered pattern with too many parameters yields a request that overflows the accumulator. */
  lemma {:induction false} OverflowingRequest<S>(t: Tree<S>, p: Pattern, acc: seq<string>)
    returns (segments: seq<string>)
    requires WellFormed(t) && Lookup(t, p).Some?
    requires |acc| <= MAX_STACK_SEGMENTS < |acc| + ParamCount(p)
    ensures Match(t, segments, acc) == Panic
    decreases |p|
  {
    match p[0]
    case Static(value) =>
      var k := ChildIndex(t.children, value);
      var rest := OverflowingRequest(t.children[k].node, p[1..], acc);
      segments := [value] + rest;
      assert segments[1..] == rest;
      MatchChildrenIs(t, 0, segments, acc);
    case Param =>
      var unused := FreshLabel(t.children);
      segments := [unused];
      if |acc| < MAX_STACK_SEGMENTS {
        var rest := OverflowingRequest(t.param.value, p[1..], acc + [unused]);
        segments := [unused] + rest;
        assert segments[1..] == rest;
      }
      MatchChildrenIs(t, 0, segments, acc);
  }

  /** The accumulator can overflow exactly when some registered route has more than 16 parameters. */
  lemma {:induction false} OverflowExactly<S>(routes: seq<Route<S>>)
    ensures ParamsFit(routes) <==> forall segments :: Match(Build(routes), segments, []) != Panic
  {
    if ParamsFit(routes) {
      forall segments ensures Match(Build(routes), segments, []) != Panic {
        RouterIsScan(routes, segments);
      }
    } else {
      var i :| 0 <= i < |routes| && ParamCount(routes[i].pattern) > MAX_STACK_SEGMENTS;
      BuildLookup(routes, routes[i].pattern);
      SomeSpecAt(routes, i);
      var segments := OverflowingRequest(Build(routes), routes[i].pattern, []);
    }
  }

  lemma {:induction false} SomeSpecAt<S>(routes: seq<Route<S>>, i: nat)
    requires i < |routes|
    ensures LastSpec(routes, routes[i].pattern).Some?
  {
    if i < |routes| - 1 { SomeSpecAt(routes[..|routes| - 1], i); }
  }
}
