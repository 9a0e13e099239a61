/**
 The query matcher (contextquery.c): does a context, with its ancestors, satisfy a path of parts?

 `Placed` gives the meaning: the parts stand on the ancestor path of the context.  The recursive
 matcher is proved to answer exactly whether there is a placement.
 */
module ContextQuery {
  import opened Wrappers

  /** A property that a context is to have; a value without a name is a context name or a wildcard. */
  datatype Attribute = Attribute(name: Option<string>, value: string)

  /** The properties of one part, the last one written first. */
  type Part = p: seq<Attribute> | |p| > 0 witness [Attribute(None, "*")]

  /** A parsed query: the parts from the top down, and whether it began with a slash. */
  datatype Query = Query(parts: seq<Part>, absPath: bool)

  /** The part stands for any number of contexts; its other properties do not matter. */
  predicate Deep(part: Part) {
    part[0].name.None? && part[0].value == "**"
  }

  /** The comparators: does a context have a property of this name and value? */
  type Comparator<!C> = (C, string, string) -> bool

  /** What one property asks of a context. */
  predicate Asks<C>(has: Comparator<C>, ctx: C, a: Attribute) {
    if a.name.Some? then has(ctx, a.name.value, a.value) else a.value == "*" || has(ctx, "Name", a.value)
  }

  ghost predicate AsksAll<C>(has: Comparator<C>, ctx: C, part: Part) {
    forall k :: 0 <= k < |part| ==> Asks(has, ctx, part[k])
  }

  /**
   The first `n` parts are placed at the positions `at` of the path, which leads from the context
   up to its root, with the last of them at `i`.
   */
  ghost predicate Placed<C>(has: Comparator<C>, path: seq<C>, q: Query, n: nat, i: nat, at: seq<nat>) {
    && 0 < n <= |q.parts| && |at| == n && at[n - 1] == i
    && (forall k :: 0 <= k < n ==> at[k] < |path|)
    // A plain part's predecessor is on its parent, a deep part is at or below its predecessor.
    && (forall k :: 0 < k < n ==> if Deep(q.parts[k]) then at[k] <= at[k - 1] else at[k - 1] == at[k] + 1)
    && (forall k :: 0 <= k < n && !Deep(q.parts[k]) ==> AsksAll(has, path[at[k]], q.parts[k]))
    && (q.absPath && !Deep(q.parts[0]) ==> at[0] == |path| - 1)
  }

  ghost predicate CanPlace<C>(has: Comparator<C>, path: seq<C>, q: Query, n: nat, i: nat) {
    exists at :: Placed(has, path, q, n, i, at)
  }

  /** The first `n` parts can be placed with the last of them at `i` or above. */
  ghost predicate CanPlaceAbove<C>(has: Comparator<C>, path: seq<C>, q: Query, n: nat, i: nat) {
    exists j: nat :: i <= j < |path| && CanPlace(has, path, q, n, j)
  }

  /** Placements of one part more. */
  lemma PlaceNext<C>(has: Comparator<C>, path: seq<C>, q: Query, n: nat, i: nat)
    requires 0 < n < |q.parts| && i < |path|
    ensures
      CanPlace(has, path, q, n + 1, i) <==>
      if Deep(q.parts[n]) then CanPlaceAbove(has, path, q, n, i)
      else AsksAll(has, path[i], q.parts[n]) && i + 1 < |path| && CanPlace(has, path, q, n, i + 1)
  {
    hide AsksAll, Deep;
    if CanPlace(has, path, q, n + 1, i) {
      var at :| Placed(has, path, q, n + 1, i, at);
      assert Placed(has, path, q, n, at[n - 1], at[..n]);
      assert at[n] == i && CanPlace(has, path, q, n, at[n - 1]);
    }
    if Deep(q.parts[n]) {
      if CanPlaceAbove(has, path, q, n, i) {
        var j: nat :| i <= j < |path| && CanPlace(has, path, q, n, j);
        Extend(has, path, q, n, j, i);
      }
    } else if AsksAll(has, path[i], q.parts[n]) && i + 1 < |path| && CanPlace(has, path, q, n, i + 1) {
      Extend(has, path, q, n, i + 1, i);
    }
  }

  lemma Extend<C>(has: Comparator<C>, path: seq<C>, q: Query, n: nat, j: nat, i: nat)
    requires 0 < n < |q.parts| && i < |path| && CanPlace(has, path, q, n, j)
    requires if Deep(q.parts[n]) then i <= j else j == i + 1 && AsksAll(has, path[i], q.parts[n])
    ensures CanPlace(has, path, q, n + 1, i)
  {
    hide AsksAll, Deep;
    var at :| Placed(has, path, q, n, j, at);
    assert Placed(has, path, q, n + 1, i, at + [i]);
  }

  lemma PlaceFirst<C>(has: Comparator<C>, path: seq<C>, q: Query, i: nat)
    requires q.parts != [] && i < |path|
    ensures CanPlace(has, path, q, 1, i) <==>
            Deep(q.parts[0]) || (AsksAll(has, path[i], q.parts[0]) && (q.absPath ==> i == |path| - 1))
  {
    hide AsksAll, Deep;
    if CanPlace(has, path, q, 1, i) {
      var at :| Placed(has, path, q, 1, i, at);
    } else {
      assert !Placed(has, path, q, 1, i, [i]);
    }
  }

  /** `match` for the first `n` parts at position `i`, the parent of a position being the next one. */
  method Match<C>(has: Comparator<C>, path: seq<C>, q: Query, n: nat, i: nat) returns (r: bool)
    requires 0 < n <= |q.parts| && i < |path|
    ensures r <==> CanPlace(has, path, q, n, i)
    decreases n, 0
  {
    hide CanPlace, AsksAll;
    var part := q.parts[n - 1];
    if n == 1 {
      PlaceFirst(has, path, q, i);
    } else {
      PlaceNext(has, path, q, n - 1, i);
    }
    if part[0].name.None? && part[0].value == "**" {
      if n == 1 {
        return true;
      }
      r := MatchAbove(has, path, q, n - 1, i);
      return;
    }
    if n > 1 {
      if i + 1 == |path| {
        return false;
      }
      var above := Match(has, path, q, n - 1, i + 1);
      if !above {
        return false;
      }
    }
    if n == 1 && q.absPath && i + 1 < |path| {
      return false;
    }
    r := HasAll(has, path[i], part);
  }

  /** The walk of a deep part up the ancestors. */
  method MatchAbove<C>(has: Comparator<C>, path: seq<C>, q: Query, n: nat, i: nat) returns (r: bool)
    requires 0 < n <= |q.parts| && i < |path|
    ensures r <==> CanPlaceAbove(has, path, q, n, i)
    decreases n, 1
  {
    hide CanPlace;
    r := Match(has, path, q, n, i);
    if r {
      return;
    }
    var ctx := i;
    while ctx + 1 < |path|
      invariant i <= ctx < |path|
      invariant forall j: nat :: i <= j <= ctx ==> !CanPlace(has, path, q, n, j)
    {
      ctx := ctx + 1;
      r := Match(has, path, q, n, ctx);
      if r {
        return;
      }
    }
  }

  method HasAll<C>(has: Comparator<C>, ctx: C, part: Part) returns (r: bool)
    ensures r <==> AsksAll(has, ctx, part)
  {
    var k := 0;
    while k < |part|
      invariant 0 <= k <= |part| && forall l :: 0 <= l < k ==> Asks(has, ctx, part[l])
    {
      var attr := part[k];
      if attr.name.Some? {
        if !has(ctx, attr.name.value, attr.value) {
          assert !Asks(has, ctx, part[k]);
          return false;
        }
      } else if attr.value != "*" {
        if !has(ctx, "Name", attr.value) {
          assert !Asks(has, ctx, part[k]);
          return false;
        }
      }
      k := k + 1;
    }
    r := true;
  }

  /** `run_context_query_ext`: no parts match every context, except that nothing follows a slash. */
  method Run<C>(has: Comparator<C>, path: seq<C>, q: Query) returns (r: bool)
    requires path != []
    ensures r <==> if q.parts == [] then !q.absPath else CanPlace(has, path, q, |q.parts|, 0)
  {
    if |q.parts| == 0 {
      return !q.absPath;
    }
    r := Match(has, path, q, |q.parts|, 0);
  }

  /** A deep first part matches wherever the rest does: a leading slash in front of it changes nothing. */
  lemma SlashBeforeDeep<C>(has: Comparator<C>, path: seq<C>, q: Query, n: nat, i: nat)
    requires q.parts != [] && Deep(q.parts[0])
    ensures CanPlace(has, path, q, n, i) == CanPlace(has, path, q.(absPath := !q.absPath), n, i)
  {
    hide Deep, AsksAll;
    var q' := q.(absPath := !q.absPath);
    if CanPlace(has, path, q, n, i) {
      var at :| Placed(has, path, q, n, i, at);
      assert Placed(has, path, q', n, i, at);
    }
    if CanPlace(has, path, q', n, i) {
      var at :| Placed(has, path, q', n, i, at);
      assert Placed(has, path, q, n, i, at);
    }
  }

  /** The other properties of a deep part are ignored: without them the query matches the same. */
  lemma DeepAlone<C>(has: Comparator<C>, path: seq<C>, q: Query, k: nat, n: nat, i: nat)
    requires k < |q.parts| && Deep(q.parts[k])
    ensures CanPlace(has, path, q, n, i) == CanPlace(has, path, q.(parts := q.parts[k := [q.parts[k][0]]]), n, i)
  {
    hide AsksAll;
    var q' := q.(parts := q.parts[k := [q.parts[k][0]]]);
    assert forall j :: 0 <= j < |q.parts| ==> Deep(q'.parts[j]) == Deep(q.parts[j]);
    if CanPlace(has, path, q, n, i) {
      var at :| Placed(has, path, q, n, i, at);
      assert Placed(has, path, q', n, i, at);
    }
    if CanPlace(has, path, q', n, i) {
      var at :| Placed(has, path, q', n, i, at);
      assert Placed(has, path, q, n, i, at);
    }
  }

  /** Two deep parts in a row match just what one does. */
  lemma DeepTwice<C>(has: Comparator<C>, path: seq<C>, q: Query, n: nat, i: nat)
    requires 0 < n < |q.parts| && i < |path| && Deep(q.parts[n - 1]) && Deep(q.parts[n])
    ensures CanPlace(has, path, q, n + 1, i) <==> CanPlace(has, path, q, n, i)
  {
    hide CanPlace, Deep;
    PlaceNext(has, path, q, n, i);
    forall j: nat | i <= j < |path|
      ensures CanPlace(has, path, q, n, j) ==> CanPlace(has, path, q, n, i)
    {
      if n == 1 {
        PlaceFirst(has, path, q, i);
      } else {
        PlaceNext(has, path, q, n - 1, j);
        PlaceNext(has, path, q, n - 1, i);
      }
    }
  }
}
