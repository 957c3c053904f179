/** Where the points of a relation lie: the recursive search through its members, which may contain each other in
    cycles (src/filter/WithinFilter.cpp, lines 74-113 and 238-253; include/geodesk/feature/RelationPtr.h). */
module WithinFilters {

  type Point = (int, int)

  datatype Member =
    | Way(placeholder: bool, vertices: seq<Point>)
    | Node(placeholder: bool, point: Point)
    | Relation(placeholder: bool, id: nat)

  /** The members of each relation */
  type Graph = map<nat, seq<Member>>

  /** locatePoint: negative outside, 0 on the boundary, positive inside */
  type Locate = Point -> int

  ghost predicate Closed(g: Graph) {
    forall r, k {:trigger g[r][k]} :: r in g && 0 <= k < |g[r]| && g[r][k].Relation? && !g[r][k].placeholder ==> g[r][k].id in g
  }

  function Max(a: int, b: int): int { if a < b then b else a }

  // ---------------------------------------------------------------- what can be reached

  predicate IsChild(g: Graph, r: nat, c: nat) { r in g && exists k :: 0 <= k < |g[r]| && g[r][k] == Relation(false, c) }

  ghost predicate IsPath(g: Graph, path: seq<nat>) {
    |path| > 0 && forall i :: 0 <= i < |path| - 1 ==> IsChild(g, path[i], path[i + 1])
  }

  /** Some chain of members leads from the root relation to this one. */
  ghost predicate Reaches(g: Graph, root: nat, x: nat) {
    exists path :: IsPath(g, path) && path[0] == root && path[|path| - 1] == x
  }

  lemma ReachesItself(g: Graph, root: nat)
    ensures Reaches(g, root, root)
  {
    assert IsPath(g, [root]);
  }

  lemma ReachesChild(g: Graph, root: nat, x: nat, c: nat)
    requires Reaches(g, root, x) && IsChild(g, x, c)
    ensures Reaches(g, root, c)
  {
    var path :| IsPath(g, path) && path[0] == root && path[|path| - 1] == x;
    var longer := path + [c];
    forall i | 0 <= i < |longer| - 1 ensures IsChild(g, longer[i], longer[i + 1]) {
      if i < |path| - 1 {
        assert IsChild(g, path[i], path[i + 1]);
      }
    }
    assert IsPath(g, longer);
  }

  predicate HasPoint(m: Member, p: Point) {
    !m.placeholder && match m { case Way(_, vertices) => p in vertices case Node(_, point) => p == point case Relation(_, _) => false }
  }

  /** The point is a vertex of a way, or a node, of a relation that can be reached. */
  ghost predicate PointReached(g: Graph, root: nat, p: Point) {
    exists x, k {:trigger g[x][k]} :: Reaches(g, root, x) && x in g && 0 <= k < |g[x]| && HasPoint(g[x][k], p)
  }

  ghost predicate SomeOutside(g: Graph, locate: Locate, root: nat) { exists p :: PointReached(g, root, p) && locate(p) < 0 }

  ghost predicate SomeAt(g: Graph, locate: Locate, root: nat, where: int) { exists p :: PointReached(g, root, p) && locate(p) == where }

  lemma MemberReached(g: Graph, root: nat, r: nat, k: nat, p: Point)
    requires Reaches(g, root, r) && r in g && k < |g[r]| && HasPoint(g[r][k], p)
    ensures PointReached(g, root, p)
  {
  }

  /** A point is reached exactly if a chain of members leads to a relation of which it is a node, or a vertex of a way. */
  lemma ReachedMeans(g: Graph, root: nat, p: Point)
    ensures PointReached(g, root, p) <==>
            exists path: seq<nat>, k: nat {:trigger g[path[|path| - 1]][k]} ::
              && |path| > 0 && path[0] == root && path[|path| - 1] in g && k < |g[path[|path| - 1]]|
              && (forall i :: 0 <= i < |path| - 1 ==> path[i] in g && Relation(false, path[i + 1]) in g[path[i]])
              && (g[path[|path| - 1]][k] == Node(false, p)
                  || (g[path[|path| - 1]][k].Way? && !g[path[|path| - 1]][k].placeholder && p in g[path[|path| - 1]][k].vertices))
  {
    hide IsPath, HasPoint, Reaches;
    if x, k :| Reaches(g, root, x) && x in g && 0 <= k < |g[x]| && HasPoint(g[x][k], p) {
      var path := PathTo(g, root, x);
      PathMeans(g, path);
      PointMeans(g[x][k], p);
      assert g[path[|path| - 1]][k] == g[x][k];
    }
    forall path: seq<nat>, k: nat {:trigger g[path[|path| - 1]][k]} |
              && |path| > 0 && path[0] == root && path[|path| - 1] in g && k < |g[path[|path| - 1]]|
              && (forall i :: 0 <= i < |path| - 1 ==> path[i] in g && Relation(false, path[i + 1]) in g[path[i]])
              && (g[path[|path| - 1]][k] == Node(false, p)
                  || (g[path[|path| - 1]][k].Way? && !g[path[|path| - 1]][k].placeholder && p in g[path[|path| - 1]][k].vertices))
      ensures PointReached(g, root, p)
    {
      PathMeans(g, path);
      PathReaches(g, path);
      PointMeans(g[path[|path| - 1]][k], p);
      MemberReached(g, root, path[|path| - 1], k, p);
    }
  }

  lemma PathTo(g: Graph, root: nat, x: nat) returns (path: seq<nat>)
    requires Reaches(g, root, x)
    ensures IsPath(g, path) && |path| > 0 && path[0] == root && path[|path| - 1] == x
  {
    path :| IsPath(g, path) && path[0] == root && path[|path| - 1] == x;
  }

  lemma PathReaches(g: Graph, path: seq<nat>)
    requires IsPath(g, path)
    ensures |path| > 0 && Reaches(g, path[0], path[|path| - 1])
  {
  }

  lemma PathMeans(g: Graph, path: seq<nat>)
    ensures IsPath(g, path) <==>
            |path| > 0 && forall i :: 0 <= i < |path| - 1 ==> path[i] in g && Relation(false, path[i + 1]) in g[path[i]]
  {
    hide IsChild;
    if IsPath(g, path) {
      forall i | 0 <= i < |path| - 1 ensures path[i] in g && Relation(false, path[i + 1]) in g[path[i]] {
        assert IsChild(g, path[i], path[i + 1]);
        ChildMeans(g, path[i], path[i + 1]);
      }
    }
    if |path| > 0 && forall i :: 0 <= i < |path| - 1 ==> path[i] in g && Relation(false, path[i + 1]) in g[path[i]] {
      forall i | 0 <= i < |path| - 1 ensures IsChild(g, path[i], path[i + 1]) {
        ChildMeans(g, path[i], path[i + 1]);
      }
    }
  }

  lemma ChildMeans(g: Graph, r: nat, c: nat)
    ensures IsChild(g, r, c) <==> r in g && Relation(false, c) in g[r]
  {
    if r in g && Relation(false, c) in g[r] {
      var k :| 0 <= k < |g[r]| && g[r][k] == Relation(false, c);
    }
  }

  lemma PointMeans(m: Member, p: Point)
    ensures HasPoint(m, p) <==> m == Node(false, p) || (m.Way? && !m.placeholder && p in m.vertices)
  {
  }

  // ---------------------------------------------------------------- what has been seen

  /** The member's points lie within bounds, and the relation that it may be has been seen. */
  predicate Done(m: Member, locate: Locate, seen: set<nat>, where: int) {
    m.placeholder || match m {
      case Way(_, vertices) => forall v :: v in vertices ==> 0 <= locate(v) <= where
      case Node(_, point) => 0 <= locate(point) <= where
      case Relation(_, id) => id in seen
    }
  }

  ghost predicate Explored(g: Graph, locate: Locate, x: nat, k: nat, seen: set<nat>, where: int) {
    x in g && k <= |g[x]| && forall j {:trigger g[x][j]} :: 0 <= j < k ==> Done(g[x][j], locate, seen, where)
  }

  lemma ExploredStays(g: Graph, locate: Locate, x: nat, k: nat, seen: set<nat>, where: int, seen': set<nat>, where': int)
    requires Explored(g, locate, x, k, seen, where) && seen <= seen' && where <= where'
    ensures Explored(g, locate, x, k, seen', where')
  {
    forall j | 0 <= j < k ensures Done(g[x][j], locate, seen', where') {
      assert Done(g[x][j], locate, seen, where);
    }
  }

  /** All relations that were added have been explored. */
  ghost predicate AllExplored(g: Graph, locate: Locate, new_: set<nat>, seen: set<nat>, where: int) {
    forall x {:trigger x in new_} :: x in new_ ==> x in g && Explored(g, locate, x, |g[x]|, seen, where)
  }

  lemma AllExploredStays(g: Graph, locate: Locate, new_: set<nat>, seen: set<nat>, where: int, seen': set<nat>, where': int)
    requires AllExplored(g, locate, new_, seen, where) && seen <= seen' && where <= where'
    ensures AllExplored(g, locate, new_, seen', where')
  {
    hide Explored;
    forall x | x in new_ ensures x in g && Explored(g, locate, x, |g[x]|, seen', where') {
      ExploredStays(g, locate, x, |g[x]|, seen, where, seen', where');
    }
  }

  /** With every relation that was seen explored, nothing else can be reached. */
  lemma SeenIsAll(g: Graph, locate: Locate, root: nat, seen: set<nat>, where: int, x: nat)
    requires root in seen && AllExplored(g, locate, seen, seen, where) && Reaches(g, root, x)
    ensures x in seen
  {
    var path :| IsPath(g, path) && path[0] == root && path[|path| - 1] == x;
    var i := 0;
    while i < |path| - 1
      invariant 0 <= i < |path| && path[i] in seen
    {
      assert Explored(g, locate, path[i], |g[path[i]]|, seen, where);
      assert IsChild(g, path[i], path[i + 1]);
      var k :| 0 <= k < |g[path[i]]| && g[path[i]][k] == Relation(false, path[i + 1]);
      assert Done(g[path[i]][k], locate, seen, where);
      i := i + 1;
    }
  }

  lemma AllWithin(g: Graph, locate: Locate, root: nat, seen: set<nat>, where: int, p: Point)
    requires root in seen && AllExplored(g, locate, seen, seen, where) && PointReached(g, root, p)
    ensures 0 <= locate(p) <= where
  {
    var x, k :| Reaches(g, root, x) && x in g && 0 <= k < |g[x]| && HasPoint(g[x][k], p);
    SeenIsAll(g, locate, root, seen, where, x);
    assert Explored(g, locate, x, |g[x]|, seen, where);
    assert Done(g[x][k], locate, seen, where);
  }

  // ---------------------------------------------------------------- the search

  class RecursionGuard {
    const parent: nat
    var childRelations: set<nat>

    constructor (relation: nat)
      ensures parent == relation && childRelations == {}
    {
      parent, childRelations := relation, {};
    }

    /** Whether the relation is seen for the first time */
    method CheckAndAdd(child: nat) returns (isNew: bool)
      modifies this
      ensures isNew <==> child != parent && child !in old(childRelations)
      ensures childRelations == if isNew then old(childRelations) + {child} else old(childRelations)
    {
      if child == parent {
        return false;
      }
      if child in childRelations {
        return false;
      }
      childRelations := childRelations + {child};
      return true;
    }
  }

  /** The first vertex that lies outside decides, else the innermost vertex. */
  method LocateWayNodes(vertices: seq<Point>, locate: Locate) returns (where: int)
    ensures where < 0 ==> exists v :: v in vertices && locate(v) == where
    ensures where >= 0 ==> forall v :: v in vertices ==> 0 <= locate(v) <= where
    ensures where > 0 ==> exists v :: v in vertices && locate(v) == where
  {
    where := 0;
    for i := 0 to |vertices|
      invariant where >= 0 && forall j :: 0 <= j < i ==> 0 <= locate(vertices[j]) <= where
      invariant where > 0 ==> exists v :: v in vertices && locate(v) == where
    {
      var pointLocation := locate(vertices[i]);
      if pointLocation < 0 {
        return pointLocation;
      }
      where := Max(where, pointLocation);
    }
  }

  ghost predicate AllReached(g: Graph, root: nat, seen: set<nat>) { forall x {:trigger x in seen} :: x in seen ==> x in g && Reaches(g, root, x) }

  /** The relation's first `k` members, and all relations seen since `before`, are explored. */
  ghost predicate Searched(g: Graph, locate: Locate, root: nat, r: nat, k: nat, before: set<nat>, seen: set<nat>, where: int) {
    && before <= seen && AllReached(g, root, seen) && where >= 0
    && Explored(g, locate, r, k, seen + {root}, where) && AllExplored(g, locate, seen - before, seen + {root}, where)
    && (where > 0 ==> SomeAt(g, locate, root, where))
  }

  lemma OneMoreMember(g: Graph, locate: Locate, root: nat, r: nat, k: nat, before: set<nat>, seen: set<nat>, where: int, where': int)
    requires Searched(g, locate, root, r, k, before, seen, where) && k < |g[r]| && where <= where'
    requires Done(g[r][k], locate, seen + {root}, where') && (where' > where ==> SomeAt(g, locate, root, where'))
    ensures Searched(g, locate, root, r, k + 1, before, seen, where')
  {
    hide AllReached, SomeAt, Done;
    ExploredStays(g, locate, r, k, seen + {root}, where, seen + {root}, where');
    AllExploredStays(g, locate, seen - before, seen + {root}, where, seen + {root}, where');
  }

  /** A child relation was searched: with its members it is explored, and so is what was seen on the way. */
  lemma ChildSearched(g: Graph, locate: Locate, root: nat, r: nat, k: nat, before: set<nat>, seen: set<nat>, where: int,
                      c: nat, seen': set<nat>, where': int)
    requires Searched(g, locate, root, r, k, before, seen, where) && k < |g[r]| && g[r][k] == Relation(false, c) && c in g && c !in seen
    requires Searched(g, locate, root, c, |g[c]|, seen + {c}, seen', where')
    ensures Searched(g, locate, root, r, k + 1, before, seen', Max(where, where'))
  {
    hide AllReached, SomeAt, Done, Explored;
    var w, all := Max(where, where'), seen' + {root};
    AllExploredStays(g, locate, seen - before, seen + {root}, where, all, w);
    AllExploredStays(g, locate, seen' - (seen + {c}), all, where', all, w);
    ExploredStays(g, locate, c, |g[c]|, all, where', all, w);
    forall x | x in seen' - before ensures x in g && Explored(g, locate, x, |g[x]|, all, w) {
      assert x in seen - before || x == c || x in seen' - (seen + {c});
    }
    ExploredStays(g, locate, r, k, seen + {root}, where, all, w);
    OneMoreExplored(g, locate, r, k, all, w);
  }

  lemma OneMoreExplored(g: Graph, locate: Locate, r: nat, k: nat, seen: set<nat>, where: int)
    requires Explored(g, locate, r, k, seen, where) && k < |g[r]| && g[r][k].Relation? && g[r][k].id in seen
    ensures Explored(g, locate, r, k + 1, seen, where)
  {
  }

  lemma NothingSearched(g: Graph, locate: Locate, root: nat, r: nat, before: set<nat>)
    requires r in g && AllReached(g, root, before)
    ensures Searched(g, locate, root, r, 0, before, before, 0)
  {
  }

  lemma SearchedReached(g: Graph, locate: Locate, root: nat, r: nat, k: nat, before: set<nat>, seen: set<nat>, where: int)
    requires Searched(g, locate, root, r, k, before, seen, where)
    ensures before <= seen && AllReached(g, root, seen)
  {
  }

  lemma PlaceholderPassed(g: Graph, locate: Locate, root: nat, r: nat, k: nat, before: set<nat>, seen: set<nat>, where: int)
    requires Searched(g, locate, root, r, k, before, seen, where) && k < |g[r]|
    requires g[r][k].placeholder || (g[r][k].Relation? && g[r][k].id in seen + {root})
    ensures Searched(g, locate, root, r, k + 1, before, seen, where)
  {
    OneMoreMember(g, locate, root, r, k, before, seen, where, where);
  }

  /** A way's or node's points were located, the innermost at `location`. */
  lemma PointsLocated(g: Graph, locate: Locate, root: nat, r: nat, k: nat, before: set<nat>, seen: set<nat>, where: int, location: int)
    requires Searched(g, locate, root, r, k, before, seen, where) && k < |g[r]| && Reaches(g, root, r)
    requires !g[r][k].Relation? && !g[r][k].placeholder && location >= 0
    requires forall p :: HasPoint(g[r][k], p) ==> 0 <= locate(p) <= location
    requires location > 0 ==> exists p :: HasPoint(g[r][k], p) && locate(p) == location
    ensures Searched(g, locate, root, r, k + 1, before, seen, Max(where, location))
  {
    hide Searched, AllReached, Reaches;
    SearchedIn(g, locate, root, r, k, before, seen, where);
    var w := Max(where, location);
    if w > where {
      var p :| HasPoint(g[r][k], p) && locate(p) == location;
      MemberReached(g, root, r, k, p);
    }
    match g[r][k] {
      case Way(_, vertices) =>
        forall v | v in vertices ensures 0 <= locate(v) <= w {
          assert HasPoint(g[r][k], v);
        }
      case Node(_, point) =>
        assert HasPoint(g[r][k], point);
    }
    OneMoreMember(g, locate, root, r, k, before, seen, where, w);
  }

  lemma SearchedIn(g: Graph, locate: Locate, root: nat, r: nat, k: nat, before: set<nat>, seen: set<nat>, where: int)
    requires Searched(g, locate, root, r, k, before, seen, where)
    ensures r in g && k <= |g[r]| && where >= 0
  {
  }

  lemma PointOutside(g: Graph, locate: Locate, root: nat, r: nat, k: nat, p: Point)
    requires Reaches(g, root, r) && r in g && k < |g[r]| && HasPoint(g[r][k], p) && locate(p) < 0
    ensures SomeOutside(g, locate, root)
  {
    hide Reaches;
    MemberReached(g, root, r, k, p);
  }

  lemma ChildReached(g: Graph, root: nat, r: nat, k: nat, seen: set<nat>)
    requires Closed(g) && Reaches(g, root, r) && r in g && k < |g[r]| && g[r][k].Relation? && !g[r][k].placeholder && AllReached(g, root, seen)
    ensures var c := g[r][k].id; g[r][k] == Relation(false, c) && c in g && Reaches(g, root, c) && AllReached(g, root, seen + {c})
  {
    hide Reaches;
    ReachesChild(g, root, r, g[r][k].id);
  }

  /** Searches a relation's members, and through the guard all relations below it that were not searched before. */
  method SearchMembers(g: Graph, locate: Locate, relation: nat, guard: RecursionGuard) returns (where: int)
    requires Closed(g) && relation in g && Reaches(g, guard.parent, relation) && AllReached(g, guard.parent, guard.childRelations)
    modifies guard
    ensures where >= 0 ==>
              Searched(g, locate, guard.parent, relation, |g[relation]|, old(guard.childRelations), guard.childRelations, where)
    ensures where < 0 ==> where == -1 && SomeOutside(g, locate, guard.parent)
    decreases g.Keys - guard.childRelations
  {
    hide Searched, AllReached, Reaches, SomeAt, SomeOutside, Closed;
    ghost var root, before := guard.parent, guard.childRelations;
    var members := g[relation];
    where := 0;
    NothingSearched(g, locate, root, relation, before);
    for k := 0 to |members|
      invariant where >= 0 && Searched(g, locate, root, relation, k, before, guard.childRelations, where)
      invariant before <= guard.childRelations
    {
      var member := members[k];
      ghost var seen, was := guard.childRelations, where;
      SearchedReached(g, locate, root, relation, k, before, seen, where);
      if member.placeholder {
        PlaceholderPassed(g, locate, root, relation, k, before, seen, where);
        continue;
      }
      match member
      case Way(_, vertices) =>
        var wayLocation := LocateWayNodes(vertices, locate);
        if wayLocation < 0 {
          ghost var v :| v in vertices && locate(v) == wayLocation;
          PointOutside(g, locate, root, relation, k, v);
          return -1;
        }
        where := Max(where, wayLocation);
        PointsLocated(g, locate, root, relation, k, before, seen, was, wayLocation);
      case Node(_, point) =>
        var pointLocation := locate(point);
        if pointLocation < 0 {
          PointOutside(g, locate, root, relation, k, point);
          return -1;
        }
        where := Max(where, pointLocation);
        assert HasPoint(member, point);
        PointsLocated(g, locate, root, relation, k, before, seen, was, pointLocation);
      case Relation(_, child) =>
        var isNew := guard.CheckAndAdd(child);
        if !isNew {
          PlaceholderPassed(g, locate, root, relation, k, before, seen, where);
          continue;
        }
        ChildReached(g, root, relation, k, seen);
        var relLocation := SearchMembers(g, locate, child, guard);
        if relLocation < 0 {
          return -1;
        }
        where := Max(where, relLocation);
        ChildSearched(g, locate, root, relation, k, before, seen, was, child, guard.childRelations, relLocation);
        SearchedReached(g, locate, root, relation, k + 1, before, guard.childRelations, where);
    }
  }

  /** The location of a relation: -1 exactly if a point that can be reached lies outside, else the innermost
      location of any such point, or 0 if there is none. */
  method LocateMembers(g: Graph, locate: Locate, relation: nat) returns (where: int)
    requires Closed(g) && relation in g
    ensures where == -1 <==> exists p :: PointReached(g, relation, p) && locate(p) < 0
    ensures where != -1 ==> where >= 0 && forall p :: PointReached(g, relation, p) ==> 0 <= locate(p) <= where
    ensures where > 0 ==> exists p :: PointReached(g, relation, p) && locate(p) == where
  {
    hide PointReached, Reaches, Closed, Explored;
    var guard := new RecursionGuard(relation);
    ReachesItself(g, relation);
    where := SearchMembers(g, locate, relation, guard);
    if where >= 0 {
      var seen := guard.childRelations + {relation};
      assert guard.childRelations - {} == guard.childRelations;
      forall p | PointReached(g, relation, p) ensures 0 <= locate(p) <= where {
        AllWithin(g, locate, relation, seen, where, p);
      }
    }
  }

  /** A relation is within the area if no point lies outside and some point lies inside, not just on the boundary. */
  method AcceptMembers(g: Graph, locate: Locate, relation: nat) returns (accepted: bool)
    requires Closed(g) && relation in g
    ensures accepted <==>
              (forall p :: PointReached(g, relation, p) ==> locate(p) >= 0) && exists p :: PointReached(g, relation, p) && locate(p) > 0
  {
    hide PointReached, Closed;
    var where := LocateMembers(g, locate, relation);
    accepted := where > 0;
  }
}
