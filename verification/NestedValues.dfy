/** Comparing nested lists of numbers: the flattening with an explicit stack, and the largest difference. */
module NestedValues {

  /** A number, or a list or tuple. */
  datatype Value = Number(x: real) | List(items: seq<Value>)

  /** The numbers from left to right. */
  function Flat(v: Value): seq<real> {
    match v
    case Number(x) => [x]
    case List(items) => FlatAll(items)
  }

  function FlatAll(values: seq<Value>): seq<real> {
    if values == [] then [] else Flat(values[0]) + FlatAll(values[1..])
  }

  // ----- the leaves of a nest -----

  /** The number x stands in v where the path of positions leads. */
  ghost predicate LeafAt(v: Value, path: seq<nat>, x: real)
    decreases |path|
  {
    if path == [] then v == Number(x)
    else v.List? && path[0] < |v.items| && LeafAt(v.items[path[0]], path[1..], x)
  }

  /** The first position at which two paths differ is smaller in p. */
  ghost predicate LeftOf(p: seq<nat>, q: seq<nat>)
    decreases |p|
  {
    p != [] && q != [] && (p[0] < q[0] || (p[0] == q[0] && LeftOf(p[1..], q[1..])))
  }

  ghost predicate LeftToRight(paths: seq<seq<nat>>) {
    forall j, k | 0 <= j < k < |paths| :: LeftOf(paths[j], paths[k])
  }

  /** The paths lead to the numbers, one each, from left to right, and to every number of v. */
  ghost predicate Enumerates(v: Value, numbers: seq<real>, paths: seq<seq<nat>>) {
    && |paths| == |numbers| && (forall k | 0 <= k < |paths| :: LeafAt(v, paths[k], numbers[k]))
    && LeftToRight(paths) && forall path, x | LeafAt(v, path, x) :: path in paths
  }

  /** The same for the items of a list from position `base` on. */
  ghost predicate LeafAmong(values: seq<Value>, base: nat, path: seq<nat>, x: real) {
    path != [] && base <= path[0] < base + |values| && LeafAt(values[path[0] - base], path[1..], x)
  }

  ghost predicate EnumeratesAll(values: seq<Value>, base: nat, numbers: seq<real>, paths: seq<seq<nat>>) {
    && |paths| == |numbers| && (forall k | 0 <= k < |paths| :: LeafAmong(values, base, paths[k], numbers[k]))
    && LeftToRight(paths) && forall path, x | LeafAmong(values, base, path, x) :: path in paths
  }

  ghost function Under(i: nat, paths: seq<seq<nat>>): seq<seq<nat>> {
    seq(|paths|, k requires 0 <= k < |paths| => [i] + paths[k])
  }

  lemma UnderKeepsOrder(i: nat, p: seq<nat>, q: seq<nat>)
    requires LeftOf(p, q)
    ensures LeftOf([i] + p, [i] + q)
  {
    assert ([i] + p)[1..] == p && ([i] + q)[1..] == q;
  }

  lemma AmongFirst(values: seq<Value>, base: nat, path: seq<nat>, x: real)
    requires values != []
    ensures LeafAmong(values, base, [base] + path, x) <==> LeafAt(values[0], path, x)
  {
    hide LeafAt;
    assert ([base] + path)[1..] == path;
  }

  lemma AmongRest(values: seq<Value>, base: nat, path: seq<nat>, x: real)
    requires values != []
    ensures LeafAmong(values[1..], base + 1, path, x) <==> LeafAmong(values, base, path, x) && path[0] != base
    ensures LeafAmong(values, base, path, x) ==> path != [] && path[0] >= base && path == [path[0]] + path[1..]
  {
    hide LeafAt;
  }

  lemma LeavesInOrder(values: seq<Value>, base: nat, first: seq<seq<nat>>, rest: seq<seq<nat>>, b: seq<real>)
    requires values != [] && LeftToRight(first) && EnumeratesAll(values[1..], base + 1, b, rest)
    ensures LeftToRight(Under(base, first) + rest)
  {
    hide LeafAmong, LeftOf;
    var under := Under(base, first);
    var paths := under + rest;
    forall j, k | 0 <= j < k < |paths| ensures LeftOf(paths[j], paths[k]) {
      if k < |under| {
        UnderKeepsOrder(base, first[j], first[k]);
      } else if j < |under| {
        AmongRest(values, base, rest[k - |under|], b[k - |under|]);
        SmallerFirst(paths[j], paths[k]);
      }
    }
  }

  lemma FirstAndRest(values: seq<Value>, base: nat, first: seq<seq<nat>>, rest: seq<seq<nat>>, a: seq<real>, b: seq<real>)
    requires values != [] && Enumerates(values[0], a, first) && EnumeratesAll(values[1..], base + 1, b, rest)
    ensures EnumeratesAll(values, base, a + b, Under(base, first) + rest)
  {
    hide LeafAt, LeafAmong, LeftOf, LeftToRight;
    var paths := Under(base, first) + rest;
    LeavesInOrder(values, base, first, rest, b);
    forall k | 0 <= k < |paths| ensures LeafAmong(values, base, paths[k], (a + b)[k]) {
      if k < |first| {
        AmongFirst(values, base, first[k], a[k]);
      } else {
        AmongRest(values, base, rest[k - |first|], b[k - |first|]);
      }
    }
    forall path, x | LeafAmong(values, base, path, x) ensures path in paths {
      AmongRest(values, base, path, x);
      if path[0] == base {
        AmongFirst(values, base, path[1..], x);
        var k :| 0 <= k < |first| && first[k] == path[1..];
        assert paths[k] == path;
      } else {
        var k :| 0 <= k < |rest| && rest[k] == path;
        assert paths[|first| + k] == path;
      }
    }
  }

  lemma SmallerFirst(p: seq<nat>, q: seq<nat>)
    requires p != [] && q != [] && p[0] < q[0]
    ensures LeftOf(p, q)
  {
  }

  /** Flattening gives every number of the nest, once, from left to right. */
  lemma {:induction false} FlatIsLeaves(v: Value) returns (paths: seq<seq<nat>>)
    ensures Enumerates(v, Flat(v), paths)
    decreases v
  {
    match v
    case Number(x) => paths := [[]];
    case List(items) =>
      paths := AllLeaves(items, 0);
      forall path, x ensures LeafAt(v, path, x) <==> LeafAmong(items, 0, path, x) {
      }
  }

  lemma {:induction false} AllLeaves(values: seq<Value>, base: nat) returns (paths: seq<seq<nat>>)
    ensures EnumeratesAll(values, base, FlatAll(values), paths)
    decreases values
  {
    if values == [] {
      paths := [];
    } else {
      var first := FlatIsLeaves(values[0]);
      var rest := AllLeaves(values[1..], base + 1);
      FirstAndRest(values, base, first, rest, Flat(values[0]), FlatAll(values[1..]));
      paths := Under(base, first) + rest;
    }
  }

  // ----- the stack loop -----

  /** What a stack still has to give; its top is at the end. */
  function Pending(stack: seq<Value>): seq<real> {
    if stack == [] then [] else Flat(stack[|stack| - 1]) + Pending(stack[..|stack| - 1])
  }

  function Nodes(v: Value): nat {
    match v
    case Number(_) => 1
    case List(items) => 1 + NodesAll(items)
  }

  function NodesAll(values: seq<Value>): nat {
    if values == [] then 0 else Nodes(values[0]) + NodesAll(values[1..])
  }

  function Reversed(values: seq<Value>): seq<Value> {
    if values == [] then [] else Reversed(values[1..]) + [values[0]]
  }

  lemma {:induction false} NodesAppend(a: seq<Value>, b: seq<Value>)
    ensures NodesAll(a + b) == NodesAll(a) + NodesAll(b)
    decreases |a|
  {
    if a == [] {
      assert a + b == b;
    } else {
      assert (a + b)[1..] == a[1..] + b;
      NodesAppend(a[1..], b);
    }
  }

  lemma NodesOne(v: Value)
    ensures NodesAll([v]) == Nodes(v)
  {
    assert [v][1..] == [];
  }

  lemma {:induction false} NodesReversed(values: seq<Value>)
    ensures NodesAll(Reversed(values)) == NodesAll(values)
    decreases |values|
  {
    if values != [] {
      NodesReversed(values[1..]);
      NodesAppend(Reversed(values[1..]), [values[0]]);
      NodesOne(values[0]);
    }
  }

  lemma PendingPush(stack: seq<Value>, v: Value)
    ensures Pending(stack + [v]) == Flat(v) + Pending(stack)
  {
    assert (stack + [v])[..|stack|] == stack;
  }

  /** Pushing a list in reverse order makes its items come off the stack from left to right. */
  lemma {:induction false} PendingReversed(stack: seq<Value>, values: seq<Value>)
    ensures Pending(stack + Reversed(values)) == FlatAll(values) + Pending(stack)
    decreases |values|
  {
    hide Pending;
    if values == [] {
      assert stack + Reversed(values) == stack;
    } else {
      PendingReversed(stack, values[1..]);
      assert stack + Reversed(values) == (stack + Reversed(values[1..])) + [values[0]];
      PendingPush(stack + Reversed(values[1..]), values[0]);
    }
  }

  /** The loop of the original; the number of nodes on the stack goes down with every turn. */
  method Flatten(values: Value) returns (out: seq<real>)
    ensures out == Flat(values) && exists paths :: Enumerates(values, out, paths)
  {
    hide Pending, Nodes, Reversed, Enumerates;
    ghost var paths := FlatIsLeaves(values);
    out := [];
    var stack := [values];
    Start(values);
    while stack != []
      invariant out + Pending(stack) == Flat(values)
      decreases NodesAll(stack)
    {
      var rest, v := stack[..|stack| - 1], stack[|stack| - 1];
      assert stack == rest + [v];
      PendingPush(rest, v);
      NodesAppend(rest, [v]);
      NodesOne(v);
      NodesOf(v);
      match v {
        case List(items) =>
          stack := rest + Reversed(items);
          PendingReversed(rest, items);
          NodesAppend(rest, Reversed(items));
          NodesReversed(items);
        case Number(x) =>
          stack := rest;
          assert out + ([x] + Pending(rest)) == (out + [x]) + Pending(rest);
          out := out + [x];
      }
    }
    Nothing(out);
  }

  lemma Start(v: Value)
    ensures [] + Pending([v]) == Flat(v)
  {
    assert [v][..0] == [];
  }

  lemma Nothing(out: seq<real>)
    ensures out + Pending([]) == out
  {
  }

  lemma NodesOf(v: Value)
    ensures v.Number? ==> Nodes(v) == 1
    ensures v.List? ==> Nodes(v) == 1 + NodesAll(v.items)
  {
  }

  // ----- the comparison -----

  datatype Distance = Infinite | Distance(value: real)

  function Abs(x: real): real { if x < 0.0 then -x else x }

  /** Two numbers are at most that far apart, or just that far. */
  ghost predicate Within(x: real, y: real, d: real) { x - y <= d && y - x <= d }

  ghost predicate Apart(x: real, y: real, d: real) { x - y == d || y - x == d }

  lemma AbsIs(x: real, y: real, d: real)
    ensures Abs(x - y) <= d <==> Within(x, y, d)
    ensures Abs(x - y) >= 0.0 && Apart(x, y, Abs(x - y))
  {
  }

  function LargestGap(a: seq<real>, b: seq<real>): real
    requires |a| == |b|
  {
    if a == [] then 0.0
    else
      var before, gap := LargestGap(a[..|a| - 1], b[..|b| - 1]), Abs(a[|a| - 1] - b[|b| - 1]);
      if gap > before then gap else before
  }

  function MaxAbsDiff(a: Value, b: Value): Distance {
    if |Flat(a)| != |Flat(b)| then Infinite else Distance(LargestGap(Flat(a), Flat(b)))
  }

  lemma {:induction false} GapIsLargest(a: seq<real>, b: seq<real>)
    requires |a| == |b|
    ensures LargestGap(a, b) >= 0.0 && (a == [] ==> LargestGap(a, b) == 0.0)
    ensures forall k | 0 <= k < |a| :: Abs(a[k] - b[k]) <= LargestGap(a, b)
    ensures a != [] ==> exists k :: 0 <= k < |a| && Abs(a[k] - b[k]) == LargestGap(a, b)
    decreases |a|
  {
    if a != [] {
      var n := |a| - 1;
      GapIsLargest(a[..n], b[..n]);
      if |a| > 1 && Abs(a[n] - b[n]) <= LargestGap(a[..n], b[..n]) {
        var k :| 0 <= k < n && Abs(a[..n][k] - b[..n][k]) == LargestGap(a[..n], b[..n]);
        assert Abs(a[k] - b[k]) == LargestGap(a, b);
      } else {
        assert Abs(a[n] - b[n]) == LargestGap(a, b);
      }
    }
  }

  lemma GapMeaning(a: seq<real>, b: seq<real>)
    requires |a| == |b|
    ensures forall k | 0 <= k < |a| :: Within(a[k], b[k], LargestGap(a, b))
    ensures a != [] ==> exists k :: 0 <= k < |a| && Apart(a[k], b[k], LargestGap(a, b))
    ensures LargestGap(a, b) == 0.0 <==> a == b
  {
    hide LargestGap, Abs;
    var gap := LargestGap(a, b);
    GapIsLargest(a, b);
    forall k | 0 <= k < |a| ensures Within(a[k], b[k], gap) && Apart(a[k], b[k], Abs(a[k] - b[k])) {
      AbsIs(a[k], b[k], gap);
    }
    if a != [] {
      var k :| 0 <= k < |a| && Abs(a[k] - b[k]) == gap;
      assert Apart(a[k], b[k], gap);
    }
  }

  /** The distance is zero exactly if both hold the same numbers in the same order, and infinite exactly if
      they hold different numbers of them; otherwise some pair of numbers is that far apart, and none farther. */
  lemma DistanceMeaning(a: Value, b: Value)
    ensures MaxAbsDiff(a, b) == Distance(0.0) <==> Flat(a) == Flat(b)
    ensures MaxAbsDiff(a, b) == Infinite <==> |Flat(a)| != |Flat(b)|
    ensures MaxAbsDiff(a, b).Distance? ==>
              && (forall k | 0 <= k < |Flat(a)| :: Within(Flat(a)[k], Flat(b)[k], MaxAbsDiff(a, b).value))
              && (Flat(a) != [] ==> exists k :: 0 <= k < |Flat(a)| && Apart(Flat(a)[k], Flat(b)[k], MaxAbsDiff(a, b).value))
  {
    hide Flat, LargestGap;
    if |Flat(a)| == |Flat(b)| {
      GapMeaning(Flat(a), Flat(b));
    }
  }

  /** Two bare numbers are as far apart as they are. */
  lemma DistanceOfNumbers(x: real, y: real)
    ensures MaxAbsDiff(Number(x), Number(y)) == Distance(if x < y then y - x else x - y)
  {
    DistanceMeaning(Number(x), Number(y));
    assert Flat(Number(x)) == [x] && Flat(Number(y)) == [y];
  }

  /** The nesting is not compared: lists of different shape can be at distance zero. */
  lemma ShapeIsNotCompared(x: real)
    ensures List([Number(x)]) != Number(x) && MaxAbsDiff(List([Number(x)]), Number(x)) == Distance(0.0)
  {
    assert [Number(x)][1..] == [];
    assert FlatAll([Number(x)]) == Flat(Number(x)) + [] == [x];
    assert Flat(List([Number(x)])) == FlatAll([Number(x)]);
    DistanceMeaning(List([Number(x)]), Number(x));
  }
}
