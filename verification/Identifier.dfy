/**
 Validating an identifier: a depth-first walk over Python objects, which may share children
 and may contain themselves.

 The object graph is a finite sequence of nodes; a container's children are indices into it.
 */
module Identifier {
  import opened Wrappers

  const MAX_IDENTIFIER_NESTING: nat := 100

  /** `Scalar` is every object that is neither a float nor a container: text, bytes, integers,
      None. */
  datatype Node =
    | Float(finite: bool)
    | Scalar
    | Container(children: seq<nat>)

  datatype Fault = NotFinite | TooDeep | Cyclic

  type Graph = seq<Node>

  ghost predicate WellFormed(g: Graph) {
    forall v :: 0 <= v < |g| && g[v].Container? ==>
      forall c :: 0 <= c < |g[v].children| ==> g[v].children[c] < |g|
  }

  // ---------- What is acceptable ----------

  /** A walk from container to child. */
  ghost predicate IsPath(g: Graph, path: seq<nat>) {
    && path != [] && (forall i :: 0 <= i < |path| ==> path[i] < |g|)
    && forall i :: 0 <= i < |path| - 1 ==>
         g[path[i]].Container? && path[i + 1] in g[path[i]].children
  }

  /** Every float that can be reached is finite, and no chain of nested containers is longer
      than the limit. */
  ghost predicate Acceptable(g: Graph, root: nat, limit: nat) {
    forall path :: IsPath(g, path) && path[0] == root ==>
      var last := g[path[|path| - 1]];
      (last.Container? ==> |path| <= limit) && (last.Float? ==> last.finite)
  }

  /** The same, level by level. */
  ghost predicate Nested(g: Graph, v: nat, levels: nat)
    requires WellFormed(g) && v < |g|
    decreases levels
  {
    match g[v]
    case Float(finite) => finite
    case Scalar => true
    case Container(children) =>
      levels > 0 && forall i :: 0 <= i < |children| ==> Nested(g, children[i], levels - 1)
  }

  lemma {:induction false} NestedIsAcceptable(g: Graph, v: nat, levels: nat)
    requires WellFormed(g) && v < |g|
    ensures Nested(g, v, levels) <==> Acceptable(g, v, levels)
    decreases levels
  {
    if Nested(g, v, levels) {
      forall path | IsPath(g, path) && path[0] == v
        ensures var last := g[path[|path| - 1]];
                (last.Container? ==> |path| <= levels) && (last.Float? ==> last.finite)
      {
        if |path| > 1 {
          var i := ChildIndex(g, path);
          NestedIsAcceptable(g, path[1], levels - 1);
          assert IsPath(g, path[1..]) && path[1..][0] == path[1];
        }
      }
    } else {
      var path := NotNestedHasPath(g, v, levels);
    }
  }

  lemma ChildIndex(g: Graph, path: seq<nat>) returns (i: nat)
    requires IsPath(g, path) && |path| > 1
    ensures g[path[0]].Container? && i < |g[path[0]].children| && g[path[0]].children[i] == path[1]
  {
    assert path[0 + 1] in g[path[0]].children;
    i :| 0 <= i < |g[path[0]].children| && g[path[0]].children[i] == path[1];
  }

  lemma NotNestedHasPath(g: Graph, v: nat, levels: nat) returns (path: seq<nat>)
    requires WellFormed(g) && v < |g| && !Nested(g, v, levels)
    ensures IsPath(g, path) && path[0] == v
    ensures var last := g[path[|path| - 1]];
            (last.Container? && |path| > levels) || (last.Float? && !last.finite)
    decreases levels
  {
    path := [v];
    if g[v].Container? && levels > 0 {
      var i :| 0 <= i < |g[v].children| && !Nested(g, g[v].children[i], levels - 1);
      var rest := NotNestedHasPath(g, g[v].children[i], levels - 1);
      path := [v] + rest;
    }
  }

  // ---------- Cycles ----------

  /** Nesting passes down a path, one level a step. */
  lemma {:induction false} NestedAlong(g: Graph, path: seq<nat>, levels: nat)
    requires WellFormed(g) && IsPath(g, path) && Nested(g, path[0], levels)
    ensures |path| - 1 <= levels && Nested(g, path[|path| - 1], levels - (|path| - 1))
    decreases |path|
  {
    if |path| > 1 {
      var i := ChildIndex(g, path);
      assert IsPath(g, path[1..]);
      NestedAlong(g, path[1..], levels - 1);
    }
  }

  /** What leads back to itself is nested at no level. */
  lemma {:induction false} CycleIsNotNested(g: Graph, path: seq<nat>, levels: nat)
    requires WellFormed(g) && IsPath(g, path) && |path| > 1 && path[0] == path[|path| - 1]
    ensures !Nested(g, path[0], levels)
    decreases levels
  {
    if Nested(g, path[0], levels) {
      NestedAlong(g, path, levels);
      CycleIsNotNested(g, path, levels - (|path| - 1));
    }
  }

  // ---------- The walk ----------

  predicate Distinct(s: seq<nat>) {
    forall i, j :: 0 <= i < j < |s| ==> s[i] != s[j]
  }

  /** What a reported fault points at, `trail` being the containers around the value. */
  ghost predicate Explains(g: Graph, trail: seq<nat>, v: nat, fault: Fault, path: seq<nat>) {
    && IsPath(g, trail + path) && path != [] && path[0] == v
    && var last := (trail + path)[|trail + path| - 1];
       match fault
       case NotFinite => g[last].Float? && !g[last].finite
       case TooDeep => |trail + path| == MAX_IDENTIFIER_NESTING + 1 && g[last].Container?
                       && Distinct((trail + path)[..MAX_IDENTIFIER_NESTING])
       case Cyclic => |trail + path| <= MAX_IDENTIFIER_NESTING && g[last].Container?
                      && last in (trail + path)[..|trail + path| - 1]
                      && Distinct((trail + path)[..|trail + path| - 1])
  }

  /** At every step of the way from the identifier to a fault, the children before the one taken
      are all fine: nothing met earlier on the walk is at fault. */
  ghost predicate FirstOnWay(g: Graph, path: seq<nat>, levels: int)
    requires WellFormed(g)
    decreases |path|
  {
    |path| > 1 ==>
      && path[0] < |g| && g[path[0]].Container?
      && (exists c :: ComesFirst(g, g[path[0]].children, c, path[1], levels))
      && FirstOnWay(g, path[1..], levels - 1)
  }

  /** Child `c` is the one taken, and each before it is nested within one level less. */
  ghost predicate ComesFirst(g: Graph, children: seq<nat>, c: nat, taken: nat, above: int)
    requires WellFormed(g)
  {
    && c < |children| && children[c] == taken
    && forall j :: 0 <= j < c ==> children[j] < |g| && above > 0 && Nested(g, children[j], above - 1)
  }

  class Validator {
    /** The containers being walked through right now. */
    var active: set<nat>

    constructor ()
      ensures active == {}
    {
      active := {};
    }

    /** Accepts exactly what is nested within the levels that are left, and leaves the set of
        active containers as it found it, whatever the answer. */
    method Validate(g: Graph, value: nat, depth: nat, ghost trail: seq<nat>) returns (r: Result<(), Fault>)
      requires WellFormed(g) && value < |g| && depth <= MAX_IDENTIFIER_NESTING
      requires |trail| == depth && IsPath(g, trail + [value]) && Distinct(trail)
      requires active == set i | 0 <= i < |trail| :: trail[i]
      modifies this
      ensures active == old(active)
      ensures r.Ok? <==> Nested(g, value, MAX_IDENTIFIER_NESTING - depth)
      ensures r.Err? ==> exists path ::
                Explains(g, trail, value, r.error, path) && FirstOnWay(g, path, MAX_IDENTIFIER_NESTING - depth)
      decreases MAX_IDENTIFIER_NESTING - depth
    {
      match g[value] {
        case Float(finite) =>
          if !finite {
            assert Explains(g, trail, value, NotFinite, [value]);
            return Err(NotFinite);
          }
          return Ok(());
        case Scalar =>
          return Ok(());
        case Container(children) =>
          if depth >= MAX_IDENTIFIER_NESTING {
            assert (trail + [value])[..MAX_IDENTIFIER_NESTING] == trail;
            assert Explains(g, trail, value, TooDeep, [value]);
            return Err(TooDeep);
          }
          if value in active {
            assert (trail + [value])[..|trail|] == trail;
            assert Explains(g, trail, value, Cyclic, [value]);
            TrailCloses(g, trail, value, MAX_IDENTIFIER_NESTING - depth);
            return Err(Cyclic);
          }
          active := active + {value};
          r := ValidateChildren(g, value, children, depth, trail);
          active := active - {value};
      }
    }

    method ValidateChildren(g: Graph, value: nat, children: seq<nat>, depth: nat, ghost trail: seq<nat>)
      returns (r: Result<(), Fault>)
      requires WellFormed(g) && value < |g| && g[value] == Container(children)
      requires depth < MAX_IDENTIFIER_NESTING && |trail| == depth
      requires IsPath(g, trail + [value]) && Distinct(trail + [value])
      requires active == set i | 0 <= i < |trail + [value]| :: (trail + [value])[i]
      modifies this
      ensures active == old(active)
      ensures r.Ok? <==> Nested(g, value, MAX_IDENTIFIER_NESTING - depth)
      ensures r.Err? ==> exists path ::
                Explains(g, trail, value, r.error, path) && FirstOnWay(g, path, MAX_IDENTIFIER_NESTING - depth)
      decreases MAX_IDENTIFIER_NESTING - depth, 0
    {
      hide IsPath, Acceptable, Distinct;
      for i := 0 to |children|
        invariant active == old(active)
        invariant forall j :: 0 <= j < i ==> Nested(g, children[j], MAX_IDENTIFIER_NESTING - depth - 1)
      {
        PathGrows(g, trail + [value], children[i]);
        r := Validate(g, children[i], depth + 1, trail + [value]);
        if r.Err? {
          ghost var path :| Explains(g, trail + [value], children[i], r.error, path)
                            && FirstOnWay(g, path, MAX_IDENTIFIER_NESTING - (depth + 1));
          assert trail + ([value] + path) == (trail + [value]) + path;
          assert Explains(g, trail, value, r.error, [value] + path);
          assert ComesFirst(g, children, i, path[0], MAX_IDENTIFIER_NESTING - depth);
          assert ([value] + path)[1..] == path;
          return;
        }
      }
      return Ok(());
    }
  }

  lemma PathGrows(g: Graph, path: seq<nat>, child: nat)
    requires WellFormed(g) && IsPath(g, path) && g[path[|path| - 1]].Container?
    requires child in g[path[|path| - 1]].children
    ensures IsPath(g, path + [child])
  {
  }

  /** A container met again inside itself. */
  lemma TrailCloses(g: Graph, trail: seq<nat>, v: nat, levels: nat)
    requires WellFormed(g) && v < |g| && IsPath(g, trail + [v]) && v in trail
    ensures !Nested(g, v, levels)
  {
    var i :| 0 <= i < |trail| && trail[i] == v;
    var loop := (trail + [v])[i..];
    assert IsPath(g, loop);
    CycleIsNotNested(g, loop, levels);
  }

  /** The whole check: accepts exactly the acceptable, and explains every refusal by a path
      from the identifier. A container reported as cyclic does contain itself. */
  method ValidateIdentifier(g: Graph, root: nat) returns (r: Result<(), Fault>)
    requires WellFormed(g) && root < |g|
    ensures r.Ok? <==> Acceptable(g, root, 100)
    ensures r.Err? ==> exists path :: Explains(g, [], root, r.error, path) && FirstOnWay(g, path, 100)
    ensures (forall path :: IsPath(g, path) && path[0] == root ==> Distinct(path)) ==> r != Err(Cyclic)
  {
    hide WellFormed, IsPath, Acceptable, Nested, Explains, Distinct;
    var validator := new Validator();
    TrailStarts(g, root);
    r := validator.Validate(g, root, 0, []);
    NestedIsAcceptable(g, root, MAX_IDENTIFIER_NESTING);
    if r == Err(Cyclic) {
      ghost var path :| Explains(g, [], root, Cyclic, path);
      CyclicMeansRepeated(g, root, path);
    }
  }

  lemma TrailStarts(g: Graph, root: nat)
    requires root < |g|
    ensures IsPath(g, [] + [root]) && Distinct([])
  {
  }

  lemma CyclicMeansRepeated(g: Graph, root: nat, path: seq<nat>)
    requires Explains(g, [], root, Cyclic, path)
    ensures IsPath(g, path) && path[0] == root && !Distinct(path)
  {
    assert [] + path == path;
  }
}
