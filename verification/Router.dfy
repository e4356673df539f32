/**
 The router as the program runs it: tree nodes mutated in place by `insert`, a search that pushes
 on and truncates a shared accumulator, and request paths split into a fixed stack buffer.
 Every method is proved against the value-level functions of `RadixTree`.
 */
module Router {
  import opened Prelude
  import opened RadixTree

  /** The stack-allocated accumulator of captured parameter values. */
  class ParamValues {
    var items: seq<string>

    constructor ()
      ensures items == []
    {
      items := [];
    }
  }

  datatype RadixChild<S> = RadixChild(segment: string, node: RadixNode<S>)

  datatype Search<+S> = Hit(spec: S) | Miss | Overflow

  class RadixNode<S> {
    var children: seq<RadixChild<S>>
    var handler: Option<S>
    var paramChild: RadixNode?<S>

    ghost var model: Tree<S>
    ghost var Repr: set<object>

    /** `node` is a subtree owned by this node, standing for the value tree `t`. */
    ghost predicate Owns(node: RadixNode<S>, t: Tree<S>)
      reads this, Repr
    {
      && this in Repr
      && node in Repr
      && node.Repr <= Repr - {this}
      && node.model == t
    }

    ghost predicate Valid()
      reads this, Repr
      ensures Valid() ==> this in Repr
      decreases Repr
    {
      && this in Repr
      && |children| == |model.children|
      && (forall i | 0 <= i < |children| ::
            children[i].segment == model.children[i].segment && Owns(children[i].node, model.children[i].node) && children[i].node.Valid())
      && (forall i, j | 0 <= i < |children| && 0 <= j < |children| && i != j ::
            children[i].node.Repr !! children[j].node.Repr)
      && handler == model.handler
      && (paramChild == null <==> model.param.None?)
      && (paramChild != null ==>
            && Owns(paramChild, model.param.value) && paramChild.Valid()
            && forall i | 0 <= i < |children| :: children[i].node.Repr !! paramChild.Repr)
    }

    constructor ()
      ensures Valid() && fresh(Repr) && model == Empty()
    {
      children, handler, paramChild := [], None, null;
      model, Repr := Empty(), {this};
    }

    method Insert(segments: seq<Segment>, spec: S)
      requires Valid()
      modifies Repr
      ensures Valid() && fresh(Repr - old(Repr))
      ensures model == RadixTree.Insert(old(model), segments, spec)
      decreases |segments|, 0
    {
      if segments == [] {
        handler := Some(spec);
        model := model.(handler := Some(spec));
        return;
      }
      match segments[0]
      case Static(value) =>
        var i := 0;
        while i < |children| && children[i].segment != value
          invariant 0 <= i <= |children|
          invariant forall j | 0 <= j < i :: children[j].segment != value
        {
          i := i + 1;
        }
        assert i == ChildIndex(model.children, value);
        if i < |children| {
          InsertInto(i, segments[1..], spec);
        } else {
          InsertNew(value, segments[1..], spec);
        }
      case Param =>
        if paramChild == null { AddParamChild(); }
        InsertIntoParam(segments[1..], spec);
    }

    /** The branch that descends into the existing child `i`. */
    method InsertInto(i: nat, rest: seq<Segment>, spec: S)
      requires Valid() && i < |children|
      modifies Repr
      ensures Valid() && fresh(Repr - old(Repr))
      ensures model == old(model).(children := old(model).children[i :=
                Child(old(children[i].segment), RadixTree.Insert(old(model).children[i].node, rest, spec))])
      decreases |rest|, 1
    {
      var node := children[i].node;
      node.Insert(rest, spec);
      Adopted(i, node);
    }

    /** The child `i` has changed within its own objects and some new ones. */
    ghost method Adopted(i: nat, node: RadixNode<S>)
      requires this in Repr && i < |children| && children[i].node == node && |children| == |model.children|
      requires forall k | 0 <= k < |children| ::
                 children[k].segment == model.children[k].segment && children[k].node in children[k].node.Repr
                 && this !in children[k].node.Repr && children[k].node.Valid()
                 && (k != i ==> Owns(children[k].node, model.children[k].node))
      requires forall k, j | 0 <= k < |children| && 0 <= j < |children| && k != j ::
                 children[k].node.Repr !! children[j].node.Repr
      requires handler == model.handler && (paramChild == null <==> model.param.None?)
      requires paramChild != null ==>
                 && Owns(paramChild, model.param.value) && paramChild.Valid()
                 && forall k | 0 <= k < |children| :: children[k].node.Repr !! paramChild.Repr
      modifies this`Repr, this`model
      ensures Valid() && Repr == old(Repr) + node.Repr
      ensures model == old(model).(children := old(model).children[i := Child(children[i].segment, node.model)])
    {
      Repr := Repr + node.Repr;
      model := model.(children := model.children[i := Child(children[i].segment, node.model)]);
    }

    /** The branch that creates a child. */
    method InsertNew(value: string, rest: seq<Segment>, spec: S)
      requires Valid()
      modifies Repr
      ensures Valid() && fresh(Repr - old(Repr))
      ensures model == old(model).(children := old(model).children
                                               + [Child(value, RadixTree.Insert(Empty(), rest, spec))])
      decreases |rest|, 1
    {
      var node := new RadixNode<S>();
      node.Insert(rest, spec);
      children := children + [RadixChild(value, node)];
      Repr := Repr + node.Repr;
      model := model.(children := model.children + [Child(value, node.model)]);
    }

    method AddParamChild()
      requires Valid() && paramChild == null
      modifies this
      ensures Valid() && fresh(Repr - old(Repr)) && paramChild != null
      ensures model == old(model).(param := Some(Empty()))
    {
      paramChild := new RadixNode<S>();
      Repr := Repr + paramChild.Repr;
      model := model.(param := Some(Empty()));
    }

    method InsertIntoParam(rest: seq<Segment>, spec: S)
      requires Valid() && paramChild != null
      modifies Repr
      ensures Valid() && fresh(Repr - old(Repr))
      ensures model == old(model).(param := Some(RadixTree.Insert(old(model).param.value, rest, spec)))
      decreases |rest|, 1
    {
      paramChild.Insert(rest, spec);
      Repr := Repr + paramChild.Repr;
      model := model.(param := Some(paramChild.model));
    }

    /** A failed search leaves the accumulator as it found it. */
    method MatchPath(segments: seq<string>, paramValues: ParamValues) returns (r: Search<S>)
      requires Valid() && paramValues !in Repr
      modifies paramValues
      ensures match Match(model, segments, old(paramValues.items))
              case Found(spec, values) => r == Hit(spec) && paramValues.items == values
              case NotFound => r == Miss && paramValues.items == old(paramValues.items)
              case Panic => r == Overflow
      decreases |segments|
    {
      if segments == [] {
        return if handler.Some? then Hit(handler.value) else Miss;
      }
      var segment, rest := segments[0], segments[1..];
      var i := 0;
      while i < |children|
        invariant 0 <= i <= |children|
        invariant paramValues.items == old(paramValues.items)
        invariant MatchChildren(model, 0, segments, paramValues.items)
                  == MatchChildren(model, i, segments, paramValues.items)
      {
        if children[i].segment == segment {
          r := children[i].node.MatchPath(rest, paramValues);
          if r != Miss { return; }
        }
        i := i + 1;
      }
      if paramChild != null {
        var prevLen := |paramValues.items|;
        if prevLen >= MAX_STACK_SEGMENTS { return Overflow; }
        paramValues.items := paramValues.items + [segment];
        r := paramChild.MatchPath(rest, paramValues);
        if r != Miss { return; }
        paramValues.items := paramValues.items[..prevLen];
      }
      return Miss;
    }
  }

  // ----- request paths -----

  /** The pieces between slashes, empty ones included. */
  function Pieces(path: string): (ps: seq<string>)
    ensures ps != []
    ensures forall i | 0 <= i < |ps| :: '/' !in ps[i]
  {
    if path == "" then [""]
    else
      var rest := Pieces(path[1..]);
      if path[0] == '/' then [""] + rest else [[path[0]] + rest[0]] + rest[1..]
  }

  function TrimStart(path: string): string {
    if path != "" && path[0] == '/' then TrimStart(path[1..]) else path
  }

  function NonEmpty(ps: seq<string>): (r: seq<string>)
    ensures forall i | 0 <= i < |r| :: r[i] != "" && r[i] in ps
  {
    if ps == [] then []
    else (if ps[0] == "" then [] else [ps[0]]) + NonEmpty(ps[1..])
  }

  /** `split_request_segments` */
  function Segments(path: string): (r: seq<string>)
    ensures forall i | 0 <= i < |r| :: r[i] != "" && '/' !in r[i]
  {
    if path == "/" then [] else NonEmpty(Pieces(TrimStart(path)))
  }

  function Render(segments: seq<string>): string {
    if segments == [] then "" else "/" + segments[0] + Render(segments[1..])
  }

  lemma {:induction false} PiecesOfWord(word: string, path: string)
    requires '/' !in word && (path == "" || path[0] == '/')
    ensures Pieces(word + path) == [word] + Pieces(path)[1..]
  {
    if word == "" {
      assert word + path == path;
      assert path != "" ==> Pieces(path)[0] == "";
    } else {
      assert (word + path)[1..] == word[1..] + path && word == [word[0]] + word[1..];
      PiecesOfWord(word[1..], path);
      assert ([word[1..]] + Pieces(path)[1..])[1..] == Pieces(path)[1..];
    }
  }

  lemma {:induction false} PiecesOfRender(segments: seq<string>)
    requires forall i | 0 <= i < |segments| :: '/' !in segments[i]
    ensures Pieces(Render(segments)) == [""] + segments
  {
    if segments != [] {
      PiecesOfRender(segments[1..]);
      var tail := segments[0] + Render(segments[1..]);
      assert Render(segments) == "/" + tail && ("/" + tail)[1..] == tail;
      PiecesOfWord(segments[0], Render(segments[1..]));
    }
  }

  lemma {:induction false} NonEmptyOfAll(ps: seq<string>)
    requires forall i | 0 <= i < |ps| :: ps[i] != ""
    ensures NonEmpty(ps) == ps
  {
    if ps != [] { NonEmptyOfAll(ps[1..]); }
  }

  /** Splitting a rendered path gives the segments back. */
  lemma {:induction false} SegmentsOfRender(segments: seq<string>)
    requires forall i | 0 <= i < |segments| :: segments[i] != "" && '/' !in segments[i]
    ensures Segments(Render(segments)) == segments
  {
    if segments != [] {
      var path := Render(segments);
      assert path[1..] == segments[0] + Render(segments[1..]);
      assert TrimStart(path) == path[1..];
      PiecesOfRender(segments[1..]);
      PiecesOfWord(segments[0], Render(segments[1..]));
      assert Pieces(path[1..]) == segments;
      NonEmptyOfAll(segments);
    }
  }

  lemma {:induction false} NonEmptyAppend(ps: seq<string>, p: string)
    ensures NonEmpty(ps + [p]) == NonEmpty(ps) + if p == "" then [] else [p]
  {
    if ps != [] {
      assert (ps + [p])[1..] == ps[1..] + [p];
      NonEmptyAppend(ps[1..], p);
    }
  }

  lemma {:induction false} NonEmptyPrefix(ps: seq<string>, n: nat)
    requires n <= |ps|
    ensures |NonEmpty(ps[..n])| <= |NonEmpty(ps)|
  {
    if n < |ps| {
      var m := |ps| - 1;
      NonEmptyPrefix(ps[..m], n);
      assert ps[..m][..n] == ps[..n] && ps == ps[..m] + [ps[m]];
      NonEmptyAppend(ps[..m], ps[m]);
    } else {
      assert ps[..n] == ps;
    }
  }

  lemma {:induction false} NonEmptyConcat(a: seq<string>, b: seq<string>)
    ensures NonEmpty(a + b) == NonEmpty(a) + NonEmpty(b)
  {
    if a == [] {
      assert a + b == b;
    } else {
      assert (a + b)[1..] == a[1..] + b;
      NonEmptyConcat(a[1..], b);
    }
  }

  lemma {:induction false} PiecesConcat(a: string, b: string)
    ensures Pieces(a + "/" + b) == Pieces(a) + Pieces(b)
  {
    if a == "" {
      assert a + "/" + b == "/" + b && ("/" + b)[1..] == b;
    } else {
      assert (a + "/" + b)[1..] == a[1..] + "/" + b && (a + "/" + b)[0] == a[0];
      PiecesConcat(a[1..], b);
    }
  }

  /** Leading slashes only add empty pieces. */
  lemma {:induction false} SegmentsArePieces(path: string)
    ensures Segments(path) == NonEmpty(Pieces(path)) == NonEmpty(Pieces(TrimStart(path)))
  {
    if path != "" && path[0] == '/' {
      SegmentsArePieces(path[1..]);
      var rest := Pieces(path[1..]);
      assert Pieces(path) == [""] + rest && ([""] + rest)[1..] == rest;
      if path == "/" { assert Pieces("") == [""] && [""][1..] == []; }
    }
  }

  /** A slash anywhere in a path separates: single, doubled, leading or trailing. */
  lemma SegmentsConcat(a: string, b: string)
    ensures Segments(a + "/" + b) == Segments(a) + Segments(b)
  {
    SegmentsArePieces(a + "/" + b);
    SegmentsArePieces(a);
    SegmentsArePieces(b);
    PiecesConcat(a, b);
    NonEmptyConcat(Pieces(a), Pieces(b));
  }

  /** A word without slashes is its own segment, and nothing is none. */
  lemma SegmentsOfWord(word: string)
    requires '/' !in word
    ensures Segments(word) == if word == "" then [] else [word]
  {
    PiecesOfWord(word, "");
    assert word + "" == word && Pieces("")[1..] == [];
    SegmentsArePieces(word);
    assert [word][1..] == [];
  }

  /** Stack splitting writes the segments, or answers one past the buffer when they do not fit. */
  method SplitSegmentsStack(path: string, buf: array<string>) returns (count: nat)
    modifies buf
    ensures |Segments(path)| <= buf.Length ==> count == |Segments(path)| && buf[..count] == Segments(path)
    ensures |Segments(path)| > buf.Length ==> count == buf.Length + 1
  {
    if path == "/" { return 0; }
    count := 0;
    var pieces := Pieces(TrimStart(path));
    for k := 0 to |pieces|
      invariant count <= buf.Length && buf[..count] == NonEmpty(pieces[..k])
    {
      assert pieces[..k + 1] == pieces[..k] + [pieces[k]];
      NonEmptyAppend(pieces[..k], pieces[k]);
      if pieces[k] == "" { continue; }
      if count >= buf.Length {
        NonEmptyPrefix(pieces, k + 1);
        return count + 1;
      }
      buf[count] := pieces[k];
      count := count + 1;
    }
    assert pieces[..|pieces|] == pieces;
  }

  // ----- the routes of one method -----

  /** Exact paths first, then the best registered pattern. */
  function Reference<S>(exact: map<string, S>, routes: seq<Route<S>>, path: string): Outcome<S> {
    if path in exact then Found(exact[path], []) else ScanOutcome(routes, Segments(path))
  }

  class MethodRoutes<S> {
    var exact: map<string, S>
    const tree: RadixNode<S>
    ghost var routes: seq<Route<S>>
    ghost var Repr: set<object>

    ghost predicate Valid()
      reads this, Repr
    {
      && this in Repr && tree in Repr && tree.Repr <= Repr && this !in tree.Repr
      && tree.Valid() && tree.model == Build(routes)
    }

    constructor ()
      ensures Valid() && fresh(Repr) && exact == map[] && routes == []
    {
      exact, routes := map[], [];
      tree := new RadixNode<S>();
      new;
      Repr := {this} + tree.Repr;
    }

    method AddExact(path: string, spec: S)
      requires Valid()
      modifies this
      ensures Valid() && exact == old(exact)[path := spec] && routes == old(routes) && Repr == old(Repr)
    {
      exact := exact[path := spec];
    }

    method AddPattern(pattern: Pattern, spec: S)
      requires Valid()
      modifies Repr
      ensures Valid() && fresh(Repr - old(Repr))
      ensures exact == old(exact) && routes == old(routes) + [Route(pattern, spec)]
    {
      tree.Insert(pattern, spec);
      Repr := Repr + tree.Repr;
      routes := routes + [Route(pattern, spec)];
      assert routes[..|routes| - 1] == old(routes);
    }

    /** Both ways of splitting the path lead to the answer of the linear scan. */
    method MatchRoute(path: string) returns (r: Outcome<S>)
      requires Valid()
      ensures path in exact ==> r == Found(exact[path], [])
      ensures ParamsFit(routes) ==> r == Reference(exact, routes, path)
      ensures path !in exact ==> r == Match(Build(routes), Segments(path), [])
    {
      if path in exact { return Found(exact[path], []); }
      var buf := new string[MAX_STACK_SEGMENTS](i => "");
      var count := SplitSegmentsStack(path, buf);
      var values := new ParamValues();
      var s: Search<S>;
      if count <= MAX_STACK_SEGMENTS {
        s := tree.MatchPath(buf[..count], values);
      } else {
        s := tree.MatchPath(Segments(path), values);
      }
      if ParamsFit(routes) { RouterIsScan(routes, Segments(path)); }
      match s
      case Hit(spec) => r := Found(spec, values.items);
      case Miss => r := NotFound;
      case Overflow => r := Panic;
    }
  }
}
