/** The parsed JSON document `walk` traverses, and the strings it offers
    for collection: every string in the tree that is not under an excluded
    key and passes the leaf test (`is_prose`), in pre-order. */
module JsonTree {

  datatype Option<T> = None | Some(value: T)

  /** A value as Python's `json.load` returns it. An object keeps its
      entries in `dict` iteration order; a number keeps its JSON text,
      which the traversal never looks at. */
  datatype Json =
    | JObject(entries: seq<(string, Json)>)
    | JArray(items: seq<Json>)
    | JString(str: string)
    | JNumber(literal: string)
    | JBool(b: bool)
    | JNull

  /** `EXCLUDE_KEYS`: keys whose whole value is skipped. */
  const ExcludeKeys: set<string> := {
    "url", "href", "src", "image", "images", "video", "media",
    "style", "styles", "css", "className", "class", "id", "compId",
    "pageId", "applicationId", "appDefinitionId", "componentType",
    "responsive", "theme", "fonts", "colors", "hex", "alpha"
  }

  /** Number of direct children; part of the termination measure. */
  function Width(j: Json): nat
  {
    match j
    case JObject(es) => |es|
    case JArray(xs) => |xs|
    case _ => 0
  }

  /** The string leaves of `j` that pass `keep`, repeats included, in the
      order `walk` reaches them: an object's entries in order, skipping
      those with an excluded key; an array's items in order; a string that
      passes `keep` is its own leaf; other scalars have none. */
  function Leaves(j: Json, keep: string -> bool): seq<string>
    decreases j, Width(j) + 1
  {
    match j
    case JObject(es) => EntriesLeaves(es, |es|, keep)
    case JArray(xs) => ItemsLeaves(xs, |xs|, keep)
    case JString(s) => if keep(s) then [s] else []
    case _ => []
  }

  /** The leaves under the first `n` entries of an object. */
  function EntriesLeaves(es: seq<(string, Json)>, n: nat, keep: string -> bool): seq<string>
    requires n <= |es|
    decreases JObject(es), n
  {
    if n == 0 then []
    else EntriesLeaves(es, n - 1, keep) + (if es[n - 1].0 in ExcludeKeys then [] else Leaves(es[n - 1].1, keep))
  }

  /** The leaves under the first `n` items of an array. */
  function ItemsLeaves(xs: seq<Json>, n: nat, keep: string -> bool): seq<string>
    requires n <= |xs|
    decreases JArray(xs), n
  {
    if n == 0 then [] else ItemsLeaves(xs, n - 1, keep) + Leaves(xs[n - 1], keep)
  }

  /** One step down the tree: the `index`-th entry of an object (in
      iteration order) or the `index`-th item of an array. */
  datatype Step = Entry(index: nat) | Item(index: nat)

  /** The value at the end of `path`, or None when a step does not exist or
      passes through an entry with an excluded key. */
  function Reach(j: Json, path: seq<Step>): Option<Json>
    decreases path
  {
    if path == [] then Some(j)
    else match (j, path[0])
      case (JObject(es), Entry(i)) =>
        if i < |es| && es[i].0 !in ExcludeKeys then Reach(es[i].1, path[1..]) else None
      case (JArray(xs), Item(i)) =>
        if i < |xs| then Reach(xs[i], path[1..]) else None
      case _ => None
  }

  /** Some path that crosses no excluded key leads to the string `s`. */
  ghost predicate Reachable(j: Json, s: string)
  {
    exists path :: Reach(j, path) == Some(JString(s))
  }

  /** Every string that passes `keep` and is reachable without crossing an
      excluded key is a leaf. */
  lemma {:induction false} ReachedIsLeaf(j: Json, path: seq<Step>, s: string, keep: string -> bool)
    requires Reach(j, path) == Some(JString(s)) && keep(s)
    ensures s in Leaves(j, keep)
    decreases path
  {
    if path == [] {
      assert j == JString(s);
    } else {
      match (j, path[0])
      case (JObject(es), Entry(i)) =>
        ReachedIsLeaf(es[i].1, path[1..], s, keep);
        EntryLeavesIncluded(es, |es|, i, keep);
      case (JArray(xs), Item(i)) =>
        ReachedIsLeaf(xs[i], path[1..], s, keep);
        ItemLeavesIncluded(xs, |xs|, i, keep);
    }
  }

  lemma {:induction false} EntryLeavesIncluded(es: seq<(string, Json)>, n: nat, i: nat, keep: string -> bool)
    requires i < n <= |es| && es[i].0 !in ExcludeKeys
    ensures forall x | x in Leaves(es[i].1, keep) :: x in EntriesLeaves(es, n, keep)
  {
    if i < n - 1 {
      EntryLeavesIncluded(es, n - 1, i, keep);
    }
  }

  lemma {:induction false} ItemLeavesIncluded(xs: seq<Json>, n: nat, i: nat, keep: string -> bool)
    requires i < n <= |xs|
    ensures forall x | x in Leaves(xs[i], keep) :: x in ItemsLeaves(xs, n, keep)
  {
    if i < n - 1 {
      ItemLeavesIncluded(xs, n - 1, i, keep);
    }
  }

  /** Every leaf passes `keep` and is reachable without crossing an
      excluded key. */
  lemma {:induction false} LeafIsReached(j: Json, s: string, keep: string -> bool)
    requires s in Leaves(j, keep)
    ensures keep(s) && Reachable(j, s)
    decreases j
  {
    match j
    case JObject(es) =>
      var i := LeafEntry(es, |es|, s, keep);
      LeafIsReached(es[i].1, s, keep);
      var p :| Reach(es[i].1, p) == Some(JString(s));
      assert ([Entry(i)] + p)[1..] == p;
      assert Reach(j, [Entry(i)] + p) == Some(JString(s));
    case JArray(xs) =>
      var i := LeafItem(xs, |xs|, s, keep);
      LeafIsReached(xs[i], s, keep);
      var p :| Reach(xs[i], p) == Some(JString(s));
      assert ([Item(i)] + p)[1..] == p;
      assert Reach(j, [Item(i)] + p) == Some(JString(s));
    case JString(t) =>
      assert Reach(j, []) == Some(JString(s));
  }

  /** The entry whose value holds a given leaf of an object. */
  lemma {:induction false} LeafEntry(es: seq<(string, Json)>, n: nat, s: string, keep: string -> bool) returns (i: nat)
    requires n <= |es| && s in EntriesLeaves(es, n, keep)
    ensures i < n && es[i].0 !in ExcludeKeys && s in Leaves(es[i].1, keep)
  {
    if s in EntriesLeaves(es, n - 1, keep) {
      i := LeafEntry(es, n - 1, s, keep);
    } else {
      i := n - 1;
    }
  }

  /** The item that holds a given leaf of an array. */
  lemma {:induction false} LeafItem(xs: seq<Json>, n: nat, s: string, keep: string -> bool) returns (i: nat)
    requires n <= |xs| && s in ItemsLeaves(xs, n, keep)
    ensures i < n && s in Leaves(xs[i], keep)
  {
    if s in ItemsLeaves(xs, n - 1, keep) {
      i := LeafItem(xs, n - 1, s, keep);
    } else {
      i := n - 1;
    }
  }

  /** The leaves are exactly the strings that pass `keep` and are reachable
      without crossing an excluded key. */
  lemma LeavesAreReachable(j: Json, s: string, keep: string -> bool)
    ensures s in Leaves(j, keep) <==> keep(s) && Reachable(j, s)
  {
    if s in Leaves(j, keep) {
      LeafIsReached(j, s, keep);
    }
    if keep(s) && Reachable(j, s) {
      var path :| Reach(j, path) == Some(JString(s));
      ReachedIsLeaf(j, path, s, keep);
    }
  }

  /** Whatever an excluded key holds, the leaves do not change. */
  lemma {:induction false} ExcludedValueIgnored(es: seq<(string, Json)>, k: nat, v: Json, keep: string -> bool)
    requires k < |es| && es[k].0 in ExcludeKeys
    ensures Leaves(JObject(es[k := (es[k].0, v)]), keep) == Leaves(JObject(es), keep)
  {
    var es' := es[k := (es[k].0, v)];
    var n := 0;
    while n < |es|
      invariant n <= |es|
      invariant EntriesLeaves(es', n, keep) == EntriesLeaves(es, n, keep)
    {
      n := n + 1;
    }
  }

  /** Numbers, booleans and null hold no leaves. */
  lemma ScalarHasNoLeaves(j: Json, keep: string -> bool)
    requires j.JNumber? || j.JBool? || j.JNull?
    ensures Leaves(j, keep) == []
  {
  }
}
