/** The traversal `walk` and its specification: walking a tree appends to
    `out`, in pre-order, each admissible string leaf not seen before, and
    records it in `seen`. */
module Extraction {
  import opened Text
  import opened Prose
  import opened JsonTree

  /** The set of elements of a sequence. */
  function Elems(s: seq<string>): set<string>
  {
    set x | x in s
  }

  lemma ElemsConcat(a: seq<string>, b: seq<string>)
    ensures Elems(a + b) == Elems(a) + Elems(b)
  {
  }

  lemma ElemsEmpty(a: seq<string>)
    ensures Elems(a) == {} <==> a == []
  {
    if a != [] {
      assert a[0] in Elems(a);
    }
  }

  lemma SeqAssoc(a: seq<string>, b: seq<string>, c: seq<string>)
    ensures (a + b) + c == a + (b + c)
  {
  }

  /** No string occurs twice. */
  predicate NoDup(s: seq<string>)
  {
    forall i, j | 0 <= i < j < |s| :: s[i] != s[j]
  }

  /** The position of the first occurrence of `x` in `xs`. */
  function IndexOf(xs: seq<string>, x: string): (i: nat)
    requires x in xs
    ensures i < |xs| && xs[i] == x && x !in xs[..i]
  {
    if xs[0] == x then 0
    else
      var i := 1 + IndexOf(xs[1..], x);
      assert xs[..i] == [xs[0]] + xs[1..][..i - 1];
      i
  }

  /** What walking a sequence of leaves appends, given the strings already
      seen: each leaf in turn, when it has not been seen yet (counting the
      ones appended before it). */
  function Fresh(xs: seq<string>, seen: set<string>): seq<string>
  {
    if xs == [] then []
    else if xs[0] !in seen then [xs[0]] + Fresh(xs[1..], seen + {xs[0]})
    else Fresh(xs[1..], seen)
  }

  /** Only leaves not seen before are appended, each once. */
  lemma {:induction false} FreshSound(xs: seq<string>, seen: set<string>)
    ensures forall x | x in Fresh(xs, seen) :: x in xs && x !in seen
    ensures NoDup(Fresh(xs, seen))
  {
    if xs != [] {
      if xs[0] !in seen {
        FreshSound(xs[1..], seen + {xs[0]});
      } else {
        FreshSound(xs[1..], seen);
      }
    }
  }

  /** The strings `Fresh` must collect: leaves not seen before. */
  ghost function Admissible(xs: seq<string>, seen: set<string>): set<string>
  {
    set x | x in xs && x !in seen
  }

  /** Every prose leaf ends up either already seen or appended. */
  lemma {:induction false} FreshComplete(xs: seq<string>, seen: set<string>)
    ensures forall x | x in xs :: x in seen || x in Fresh(xs, seen)
  {
    if xs != [] {
      if xs[0] !in seen {
        FreshComplete(xs[1..], seen + {xs[0]});
      } else {
        FreshComplete(xs[1..], seen);
      }
      assert forall x | x in xs :: x == xs[0] || x in xs[1..];
    }
  }

  /** Appended strings are exactly the admissible ones. */
  lemma FreshElems(xs: seq<string>, seen: set<string>)
    ensures Elems(Fresh(xs, seen)) == Admissible(xs, seen)
  {
    FreshSound(xs, seen);
    FreshComplete(xs, seen);
  }

  /** Walking two sequences of leaves one after the other is walking their
      concatenation. */
  lemma {:induction false} FreshConcat(xs: seq<string>, ys: seq<string>, seen: set<string>)
    ensures Fresh(xs + ys, seen) == Fresh(xs, seen) + Fresh(ys, seen + Elems(Fresh(xs, seen)))
  {
    if xs == [] {
      assert [] + ys == ys;
      assert seen + Elems([]) == seen;
    } else {
      assert (xs + ys)[0] == xs[0];
      assert (xs + ys)[1..] == xs[1..] + ys;
      var x := xs[0];
      if x !in seen {
        FreshConcat(xs[1..], ys, seen + {x});
        ElemsConcat([x], Fresh(xs[1..], seen + {x}));
        assert seen + {x} + Elems(Fresh(xs[1..], seen + {x})) == seen + Elems(Fresh(xs, seen));
      } else {
        FreshConcat(xs[1..], ys, seen);
      }
    }
  }

  /** The leaves are appended in the order of their first occurrence. */
  ghost predicate InFirstSeenOrder(xs: seq<string>, a: seq<string>)
  {
    (forall x | x in a :: x in xs)
    && forall i, j | 0 <= i < j < |a| :: a[i] in xs && a[j] in xs && IndexOf(xs, a[i]) < IndexOf(xs, a[j])
  }

  lemma IndexOfTail(xs: seq<string>, y: string)
    requires y in xs && y != xs[0]
    ensures y in xs[1..] && IndexOf(xs, y) == 1 + IndexOf(xs[1..], y)
  {
  }

  lemma {:induction false} FreshOrder(xs: seq<string>, seen: set<string>)
    ensures InFirstSeenOrder(xs, Fresh(xs, seen))
  {
    if xs != [] {
      var x := xs[0];
      var r := Fresh(xs, seen);
      if x !in seen {
        var r' := Fresh(xs[1..], seen + {x});
        FreshOrder(xs[1..], seen + {x});
        FreshSound(xs[1..], seen + {x});
        assert r == [x] + r';
        forall y | y in r' ensures y in xs && IndexOf(xs, y) == 1 + IndexOf(xs[1..], y) {
          IndexOfTail(xs, y);
        }
        forall i, j | 0 <= i < j < |r| ensures IndexOf(xs, r[i]) < IndexOf(xs, r[j]) {
          assert r[j] == r'[j - 1];
          if i > 0 {
            assert r[i] == r'[i - 1];
          }
        }
      } else {
        FreshOrder(xs[1..], seen);
        FreshSound(xs[1..], seen);
        forall y | y in r ensures y in xs && IndexOf(xs, y) == 1 + IndexOf(xs[1..], y) {
          IndexOfTail(xs, y);
        }
      }
    }
  }

  /** Dropping the head of a duplicate-free sequence in first-seen order
      keeps it so, and removes exactly the head from its elements. */
  lemma DropHead(xs: seq<string>, a: seq<string>)
    requires a != [] && NoDup(a) && InFirstSeenOrder(xs, a)
    ensures NoDup(a[1..]) && InFirstSeenOrder(xs, a[1..])
    ensures Elems(a[1..]) == Elems(a) - {a[0]}
  {
    assert forall k | 0 <= k < |a[1..]| :: a[1..][k] == a[k + 1];
    assert forall x | x in a :: x == a[0] || x in a[1..];
  }

  /** Two non-empty sequences in first-seen order of `xs` with the same
      elements start with the same string: the one that occurs first. */
  lemma SameHead(xs: seq<string>, a: seq<string>, b: seq<string>)
    requires a != [] && b != [] && Elems(a) == Elems(b)
    requires InFirstSeenOrder(xs, a) && InFirstSeenOrder(xs, b)
    ensures a[0] == b[0]
  {
    assert a[0] in Elems(b) && b[0] in Elems(a);
    var i :| 0 <= i < |a| && a[i] == b[0];
    var j :| 0 <= j < |b| && b[j] == a[0];
  }

  /** Two duplicate-free sequences with the same elements, both in
      first-seen order of `xs`, are equal. */
  lemma {:induction false} FirstSeenOrderUnique(xs: seq<string>, a: seq<string>, b: seq<string>)
    requires NoDup(a) && NoDup(b) && Elems(a) == Elems(b)
    requires InFirstSeenOrder(xs, a) && InFirstSeenOrder(xs, b)
    ensures a == b
    decreases |a|
  {
    if a == [] || b == [] {
      ElemsEmpty(a);
      ElemsEmpty(b);
    } else {
      SameHead(xs, a, b);
      DropHead(xs, a);
      DropHead(xs, b);
      FirstSeenOrderUnique(xs, a[1..], b[1..]);
      assert a == [a[0]] + a[1..];
      assert b == [b[0]] + b[1..];
    }
  }

  /** An independent description of `Fresh`: it is the one duplicate-free
      sequence of the admissible strings in the order they first occur. */
  lemma FreshCharacterized(xs: seq<string>, seen: set<string>, a: seq<string>)
    ensures a == Fresh(xs, seen) <==>
              NoDup(a) && Elems(a) == Admissible(xs, seen) && InFirstSeenOrder(xs, a)
  {
    FreshElems(xs, seen);
    FreshOrder(xs, seen);
    if NoDup(a) && Elems(a) == Admissible(xs, seen) && InFirstSeenOrder(xs, a) {
      FirstSeenOrderUnique(xs, a, Fresh(xs, seen));
    }
  }

  /** One more part walked after `done`: what is appended, and what is
      seen afterwards. */
  lemma FreshStep(done: seq<string>, part: seq<string>, seen: set<string>)
    ensures Fresh(done + part, seen) == Fresh(done, seen) + Fresh(part, seen + Elems(Fresh(done, seen)))
    ensures seen + Elems(Fresh(done + part, seen))
            == (seen + Elems(Fresh(done, seen))) + Elems(Fresh(part, seen + Elems(Fresh(done, seen))))
  {
    FreshConcat(done, part, seen);
    ElemsConcat(Fresh(done, seen), Fresh(part, seen + Elems(Fresh(done, seen))));
  }

  /** The state after walking entry `i` of an object whose key is not
      excluded, given the state after the entries before it. */
  lemma EntryStep(es: seq<(string, Json)>, i: nat, keep: string -> bool,
                  out0: seq<string>, seen0: set<string>, outI: seq<string>, seenI: set<string>,
                  outN: seq<string>, seenN: set<string>)
    requires i < |es| && es[i].0 !in ExcludeKeys
    requires outI == out0 + Fresh(EntriesLeaves(es, i, keep), seen0)
    requires seenI == seen0 + Elems(Fresh(EntriesLeaves(es, i, keep), seen0))
    requires outN == outI + Fresh(Leaves(es[i].1, keep), seenI)
    requires seenN == seenI + Elems(Fresh(Leaves(es[i].1, keep), seenI))
    ensures outN == out0 + Fresh(EntriesLeaves(es, i + 1, keep), seen0)
    ensures seenN == seen0 + Elems(Fresh(EntriesLeaves(es, i + 1, keep), seen0))
  {
    var done := EntriesLeaves(es, i, keep);
    var part := Leaves(es[i].1, keep);
    assert EntriesLeaves(es, i + 1, keep) == done + part;
    FreshStep(done, part, seen0);
    SeqAssoc(out0, Fresh(done, seen0), Fresh(part, seenI));
  }

  /** An entry with an excluded key adds no leaves. */
  lemma SkipStep(es: seq<(string, Json)>, i: nat, keep: string -> bool)
    requires i < |es| && es[i].0 in ExcludeKeys
    ensures EntriesLeaves(es, i + 1, keep) == EntriesLeaves(es, i, keep)
  {
  }

  /** The state after walking item `i` of an array, given the state after
      the items before it. */
  lemma ItemStep(xs: seq<Json>, i: nat, keep: string -> bool,
                 out0: seq<string>, seen0: set<string>, outI: seq<string>, seenI: set<string>,
                 outN: seq<string>, seenN: set<string>)
    requires i < |xs|
    requires outI == out0 + Fresh(ItemsLeaves(xs, i, keep), seen0)
    requires seenI == seen0 + Elems(Fresh(ItemsLeaves(xs, i, keep), seen0))
    requires outN == outI + Fresh(Leaves(xs[i], keep), seenI)
    requires seenN == seenI + Elems(Fresh(Leaves(xs[i], keep), seenI))
    ensures outN == out0 + Fresh(ItemsLeaves(xs, i + 1, keep), seen0)
    ensures seenN == seen0 + Elems(Fresh(ItemsLeaves(xs, i + 1, keep), seen0))
  {
    var done := ItemsLeaves(xs, i, keep);
    var part := Leaves(xs[i], keep);
    assert ItemsLeaves(xs, i + 1, keep) == done + part;
    FreshStep(done, part, seen0);
    SeqAssoc(out0, Fresh(done, seen0), Fresh(part, seenI));
  }

  /** A string leaf is appended, and added to `seen`, exactly when it
      passes `keep` and is not yet in `seen`. */
  lemma StringStep(s: string, keep: string -> bool,
                   out0: seq<string>, seen0: set<string>, out1: seq<string>, seen1: set<string>)
    requires out1 == if keep(s) && s !in seen0 then out0 + [s] else out0
    requires seen1 == if keep(s) && s !in seen0 then seen0 + {s} else seen0
    ensures out1 == out0 + Fresh(Leaves(JString(s), keep), seen0)
    ensures seen1 == seen0 + Elems(Fresh(Leaves(JString(s), keep), seen0))
  {
    assert [s][1..] == [];
    assert Elems([s]) == {s};
    assert Elems([]) == {};
    assert out0 + [] == out0;
  }

  /** Walking a subtree without leaves leaves the state as it was. */
  lemma NothingFresh(out: seq<string>, seen: set<string>, xs: seq<string>)
    requires xs == []
    ensures out + Fresh(xs, seen) == out && seen + Elems(Fresh(xs, seen)) == seen
  {
    assert Elems([]) == {};
  }

  /** Once every leaf has been collected, a second pass adds nothing. */
  lemma {:induction false} FreshAllSeen(xs: seq<string>, seen: set<string>)
    requires forall x | x in xs :: x in seen
    ensures Fresh(xs, seen) == []
  {
    if xs != [] {
      FreshAllSeen(xs[1..], seen);
    }
  }

  lemma SecondPassAddsNothing(xs: seq<string>, seen: set<string>)
    ensures Fresh(xs, seen + Elems(Fresh(xs, seen))) == []
  {
    FreshComplete(xs, seen);
    FreshAllSeen(xs, seen + Elems(Fresh(xs, seen)));
  }

  /** Appending `Fresh` keeps `out` duplicate-free and `seen` equal to
      the elements of `out`. */
  lemma FreshKeepsDistinct(out: seq<string>, seen: set<string>, xs: seq<string>)
    requires NoDup(out) && seen == Elems(out)
    ensures NoDup(out + Fresh(xs, seen))
    ensures Elems(out + Fresh(xs, seen)) == seen + Elems(Fresh(xs, seen))
  {
    var r := Fresh(xs, seen);
    FreshSound(xs, seen);
    ElemsConcat(out, r);
    forall i, j | 0 <= i < j < |out + r| ensures (out + r)[i] != (out + r)[j] {
      if j >= |out| && i < |out| {
        assert (out + r)[i] in seen;
        assert (out + r)[j] == r[j - |out|];
      }
    }
  }

  /** The mutable state `walk` threads through the recursion: the output
      list `out` and the set `seen`. */
  class Collector {
    var out: seq<string>
    var seen: set<string>

    /** The state `main` starts from: an empty list and an empty set. */
    constructor ()
      ensures out == [] && seen == {}
    {
      out := [];
      seen := {};
    }

    /** `seen` holds exactly the strings of `out`, each once. */
    ghost predicate Valid()
      reads this
    {
      NoDup(out) && seen == Elems(out)
    }

    /** `walk(node, out, seen)`: append, in pre-order, every string leaf
        of `node` outside excluded keys that passes the leaf test `keep`
        and is not yet in `seen`. The source's leaf test is `is_prose`,
        which `ExtractProse` passes. */
    method Walk(node: Json, keep: string -> bool)
      modifies this
      decreases node, 1
      ensures out == old(out) + Fresh(Leaves(node, keep), old(seen))
      ensures seen == old(seen) + Elems(Fresh(Leaves(node, keep), old(seen)))
      ensures old(Valid()) ==> Valid()
    {
      ghost var out0, seen0 := out, seen;
      match node {
      case JObject(es) =>
        WalkEntries(es, keep);
      case JArray(xs) =>
        WalkItems(xs, keep);
      case JString(s) =>
        if keep(s) && s !in seen {
          seen := seen + {s};
          out := out + [s];
        }
        StringStep(s, keep, out0, seen0, out, seen);
      case _ =>
        NothingFresh(out0, seen0, Leaves(node, keep));
      }
      if old(Valid()) {
        FreshKeepsDistinct(out0, seen0, Leaves(node, keep));
      }
    }

    /** The dictionary branch of `walk`: each entry in order, skipping the
        value of an excluded key. */
    method WalkEntries(es: seq<(string, Json)>, keep: string -> bool)
      modifies this
      decreases JObject(es), 0
      ensures out == old(out) + Fresh(Leaves(JObject(es), keep), old(seen))
      ensures seen == old(seen) + Elems(Fresh(Leaves(JObject(es), keep), old(seen)))
    {
      ghost var out0, seen0 := out, seen;
      for i := 0 to |es|
        invariant out == out0 + Fresh(EntriesLeaves(es, i, keep), seen0)
        invariant seen == seen0 + Elems(Fresh(EntriesLeaves(es, i, keep), seen0))
      {
        if es[i].0 !in ExcludeKeys {
          ghost var outI, seenI := out, seen;
          Walk(es[i].1, keep);
          EntryStep(es, i, keep, out0, seen0, outI, seenI, out, seen);
        } else {
          SkipStep(es, i, keep);
        }
      }
    }

    /** The list branch of `walk`: each item in order. */
    method WalkItems(xs: seq<Json>, keep: string -> bool)
      modifies this
      decreases JArray(xs), 0
      ensures out == old(out) + Fresh(Leaves(JArray(xs), keep), old(seen))
      ensures seen == old(seen) + Elems(Fresh(Leaves(JArray(xs), keep), old(seen)))
    {
      ghost var out0, seen0 := out, seen;
      for i := 0 to |xs|
        invariant out == out0 + Fresh(ItemsLeaves(xs, i, keep), seen0)
        invariant seen == seen0 + Elems(Fresh(ItemsLeaves(xs, i, keep), seen0))
      {
        ghost var outI, seenI := out, seen;
        Walk(xs[i], keep);
        ItemStep(xs, i, keep, out0, seen0, outI, seenI, out, seen);
      }
    }
  }

  /** What walking `node` appends when `seen` holds the strings collected
      so far: only strings that pass `keep`, are reachable in `node` without
      crossing an excluded key, and are not yet in `seen`, each once, in
      the order they first occur; and every such string is appended. */
  lemma WalkAppends(node: Json, keep: string -> bool, seen: set<string>)
    ensures NoDup(Fresh(Leaves(node, keep), seen))
    ensures forall p | p in Fresh(Leaves(node, keep), seen) ::
              keep(p) && Reachable(node, p) && p !in seen
    ensures forall s | keep(s) && Reachable(node, s) ::
              s in seen || s in Fresh(Leaves(node, keep), seen)
    ensures InFirstSeenOrder(Leaves(node, keep), Fresh(Leaves(node, keep), seen))
  {
    var xs := Leaves(node, keep);
    FreshSound(xs, seen);
    forall p | p in Fresh(xs, seen) ensures keep(p) && Reachable(node, p) {
      LeavesAreReachable(node, p, keep);
    }
    FreshComplete(xs, seen);
    forall s | keep(s) && Reachable(node, s) ensures s in seen || s in Fresh(xs, seen) {
      LeavesAreReachable(node, s, keep);
    }
    FreshOrder(xs, seen);
  }

  /** The traversal `main` runs on a parsed document: start from an empty
      list and set, walk the whole tree, and return the list. */
  method ExtractProse(doc: Json) returns (paras: seq<string>)
    ensures paras == Fresh(Leaves(doc, IsProse), {})
    ensures NoDup(paras)
    ensures forall p | p in paras :: IsProse(p) && Reachable(doc, p)
    ensures forall s | IsProse(s) && Reachable(doc, s) :: s in paras
    ensures InFirstSeenOrder(Leaves(doc, IsProse), paras)
  {
    var c := new Collector();
    c.Walk(doc, IsProse);
    paras := c.out;
    assert paras == Fresh(Leaves(doc, IsProse), {});
    WalkAppends(doc, IsProse, {});
  }

  /** A string under an excluded key never reaches the output, even when a
      sibling entry's string does. */
  lemma ExcludedKeyCase(hidden: string, body: string, keep: string -> bool)
    requires keep(body)
    ensures Fresh(Leaves(JObject([("style", JObject([("text", JString(hidden))])),
                                  ("body", JString(body))]), keep), {}) == [body]
  {
    var es := [("style", JObject([("text", JString(hidden))])), ("body", JString(body))];
    assert "style" in ExcludeKeys;
    assert "body" !in ExcludeKeys;
    assert EntriesLeaves(es, 1, keep) == [];
    assert EntriesLeaves(es, 2, keep) == [body];
  }

  /** A repeated string is kept once, at its first position. */
  lemma RepeatedStringCase(a: string, b: string, keep: string -> bool)
    requires keep(a) && keep(b) && a != b
    ensures Fresh(Leaves(JArray([JString(a), JString(b), JString(a)]), keep), {}) == [a, b]
  {
    var xs := [JString(a), JString(b), JString(a)];
    assert ItemsLeaves(xs, 1, keep) == [a];
    assert ItemsLeaves(xs, 2, keep) == [a, b];
    assert ItemsLeaves(xs, 3, keep) == [a, b, a];
    assert [a][1..] == [];
    var seen1: set<string> := {} + {a};
    var seen2 := seen1 + {b};
    assert Fresh([a], seen2) == [];
    assert [b, a][1..] == [a];
    assert Fresh([b, a], seen1) == [b] + Fresh([a], seen2);
    assert [a, b, a][1..] == [b, a];
    assert Fresh([a, b, a], {}) == [a] + Fresh([b, a], seen1);
  }
}
