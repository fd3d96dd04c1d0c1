/** The walker as `main` runs it: `walk` bound to
    `lambda t: TagToDigest(t, overrides, transport)`, so every lookup reads and
    may extend the shared override map. The map is threaded through the walk
    in evaluation order; for a dict that is, per entry, the value and then the
    key, as a Python 2.7 dict comprehension evaluates them. */
module CachedWalk {
  import opened Wrappers
  import opened PyDict
  import opened Names
  import opened Resolution
  import opened Walker

  function WalkCached(names: Naming, reg: Registry, n: Node, m: Overrides): (r: (Node, Overrides))
    ensures n.Map? <==> r.0.Map?
    ensures n.List? <==> r.0.List?
    ensures n.Str? <==> r.0.Str?
    ensures n.Other? ==> r == (n, m)
    ensures n.List? ==> |r.0.items| == |n.items|
    ensures forall t :: t in m ==> t in r.1 && r.1[t] == m[t]
    decreases n, 2
  {
    match n
    case Map(_) =>
      var ps := PairsCached(names, reg, n, 0, m);
      (Map(FromPairs(ps.0)), ps.1)
    case List(_) =>
      var ys := ItemsCached(names, reg, n, 0, m);
      (List(ys.0), ys.1)
    case Str(s) =>
      (match names.parseTag(s)
       case None => (n, m)
       case Some(t) =>
         var d := TagToDigest(names, reg, t, m);
         (Str(if d.0.Ok? then d.0.value else s), d.1))
    case Other(_) => (n, m)
  }

  /** The list items from index `i` on, walked one after another. */
  function ItemsCached(names: Naming, reg: Registry, n: Node, i: nat, m: Overrides): (r: (seq<Node>, Overrides))
    requires n.List? && i <= |n.items|
    ensures |r.0| == |n.items| - i
    ensures forall t :: t in m ==> t in r.1 && r.1[t] == m[t]
    decreases n, 1, |n.items| - i
  {
    if i == |n.items| then ([], m)
    else
      var y := WalkCached(names, reg, n.items[i], m);
      var ys := ItemsCached(names, reg, n, i + 1, y.1);
      ([y.0] + ys.0, ys.1)
  }

  /** The dict entries from index `i` on, each walked value first, then key. */
  function PairsCached(names: Naming, reg: Registry, n: Node, i: nat, m: Overrides): (r: (seq<(Node, Node)>, Overrides))
    requires n.Map? && i <= |n.entries|
    ensures |r.0| == |n.entries| - i
    ensures forall t :: t in m ==> t in r.1 && r.1[t] == m[t]
    decreases n, 1, |n.entries| - i
  {
    if i == |n.entries| then ([], m)
    else
      var v := WalkCached(names, reg, n.entries[i].1, m);
      var k := WalkCached(names, reg, n.entries[i].0, v.1);
      var rest := PairsCached(names, reg, n, i + 1, k.1);
      ([(k.0, v.0)] + rest.0, rest.1)
  }

  /** Tag `t` is what some `str` leaf of `n` parses to. */
  ghost predicate Mentions(names: Naming, n: Node, t: Tag) {
    exists s :: HasString(n, s) && names.parseTag(s) == Some(t)
  }

  /** `m'` is `m` plus entries for tags mentioned in `n`, each holding exactly
      what the registry answers for it. */
  ghost predicate Extends(names: Naming, reg: Registry, n: Node, m: Overrides, m': Overrides) {
    && (forall t :: t in m ==> t in m' && m'[t] == m[t])
    && (forall t :: t in m' && t !in m ==> Mentions(names, n, t) && FromRegistry(names, reg, t) == Ok(m'[t]))
  }

  /** An extension never changes what any lookup answers. */
  lemma ExtendsTransparent(names: Naming, reg: Registry, n: Node, m: Overrides, m': Overrides)
    requires Extends(names, reg, n, m, m')
    ensures forall t :: Lookup(names, reg, m', t) == Lookup(names, reg, m, t)
  {
  }

  /** Extensions compose, and an extension by a subtree is one by the tree. */
  lemma ExtendsTrans(names: Naming, reg: Registry, sub: Node, n: Node, m0: Overrides, m1: Overrides, m2: Overrides)
    requires forall s :: HasString(sub, s) ==> HasString(n, s)
    requires Extends(names, reg, n, m0, m1)
    requires Extends(names, reg, sub, m1, m2)
    ensures Extends(names, reg, n, m0, m2)
  {
    forall t | t in m2 && t !in m0 ensures Mentions(names, n, t) && FromRegistry(names, reg, t) == Ok(m2[t]) {
      if t !in m1 {
        var s :| HasString(sub, s) && names.parseTag(s) == Some(t);
        assert HasString(n, s);
      }
    }
  }

  /** Two extensions by the same tree compose. */
  lemma ExtendsCompose(names: Naming, reg: Registry, n: Node, m0: Overrides, m1: Overrides, m2: Overrides)
    requires Extends(names, reg, n, m0, m1)
    requires Extends(names, reg, n, m1, m2)
    ensures Extends(names, reg, n, m0, m2)
  {
  }

  /** Every map extends itself. */
  lemma ExtendsRefl(names: Naming, reg: Registry, n: Node, m: Overrides)
    ensures Extends(names, reg, n, m, m)
  {
  }

  /** A walk with the shared override map gives the same document as the pure
      walk with the resolver "map entry, else registry" fixed at the start, and
      it only adds registry answers for tags the document mentions. */
  lemma {:induction false} WalkCachedIsWalk(names: Naming, reg: Registry, n: Node, m: Overrides, f: Tag -> Result<string, Error>)
    requires forall t :: f(t) == Lookup(names, reg, m, t)
    ensures WalkCached(names, reg, n, m).0 == Walk(names.parseTag, f, n)
    ensures Extends(names, reg, n, m, WalkCached(names, reg, n, m).1)
    decreases n, 2
  {
    match n
    case Map(es) =>
      PairsCachedIsWalk(names, reg, n, 0, m, f);
    case List(xs) =>
      ItemsCachedIsWalk(names, reg, n, 0, m, f);
      ItemsCachedExtends(names, reg, n, 0, m);
    case Str(s) =>
      assert HasString(n, s);
    case Other(_) =>
  }

  lemma {:induction false} ItemsCachedIsWalk(names: Naming, reg: Registry, n: Node, i: nat, m: Overrides, f: Tag -> Result<string, Error>)
    requires n.List? && i <= |n.items|
    requires forall t :: f(t) == Lookup(names, reg, m, t)
    ensures ItemsCached(names, reg, n, i, m).0 == WalkedItems(names.parseTag, f, n)[i..]
    decreases n, 1, |n.items| - i
  {
    if i < |n.items| {
      ItemCachedIsWalk(names, reg, n, i, m, f);
      var y := WalkCached(names, reg, n.items[i], m);
      ItemsCachedIsWalk(names, reg, n, i + 1, y.1, f);
      SuffixCons(WalkedItems(names.parseTag, f, n), i);
    }
  }

  lemma {:induction false} ItemsCachedExtends(names: Naming, reg: Registry, n: Node, i: nat, m: Overrides)
    requires n.List? && i <= |n.items|
    ensures Extends(names, reg, n, m, ItemsCached(names, reg, n, i, m).1)
    decreases n, 1, |n.items| - i
  {
    if i < |n.items| {
      ItemCachedExtends(names, reg, n, i, m);
      var y := WalkCached(names, reg, n.items[i], m);
      var m2 := ItemsCached(names, reg, n, i + 1, y.1).1;
      ItemsCachedExtends(names, reg, n, i + 1, y.1);
      ExtendsCompose(names, reg, n, m, y.1, m2);
      assert ItemsCached(names, reg, n, i, m).1 == m2;
    } else {
      ExtendsRefl(names, reg, n, m);
    }
  }

  /** One list item, walked with `m`. */
  lemma ItemCachedIsWalk(names: Naming, reg: Registry, n: Node, i: nat, m: Overrides, f: Tag -> Result<string, Error>)
    requires n.List? && i < |n.items|
    requires forall t :: f(t) == Lookup(names, reg, m, t)
    ensures var y := WalkCached(names, reg, n.items[i], m);
            && y.0 == WalkedItems(names.parseTag, f, n)[i]
            && Extends(names, reg, n, m, y.1)
            && forall t :: f(t) == Lookup(names, reg, y.1, t)
    decreases n, 0, 0
  {
    var x := n.items[i];
    forall s | HasString(x, s) ensures HasString(n, s) {
      assert 0 <= i < |n.items| && HasString(n.items[i], s);
    }
    var y := WalkCached(names, reg, x, m);
    WalkCachedIsWalk(names, reg, x, m, f);
    ExtendsTransparent(names, reg, x, m, y.1);
    ExtendsTrans(names, reg, x, n, m, m, y.1);
  }

  lemma {:induction false} PairsCachedIsWalk(names: Naming, reg: Registry, n: Node, i: nat, m: Overrides, f: Tag -> Result<string, Error>)
    requires n.Map? && i <= |n.entries|
    requires forall t :: f(t) == Lookup(names, reg, m, t)
    ensures PairsCached(names, reg, n, i, m).0 == WalkedPairs(names.parseTag, f, n)[i..]
    ensures Extends(names, reg, n, m, PairsCached(names, reg, n, i, m).1)
    decreases n, 1, |n.entries| - i
  {
    if i < |n.entries| {
      var e := n.entries[i];
      EntryCachedIsWalk(names, reg, n, i, m, f);
      var v := WalkCached(names, reg, e.1, m);
      var k := WalkCached(names, reg, e.0, v.1);
      var rest := PairsCached(names, reg, n, i + 1, k.1);
      PairsCachedIsWalk(names, reg, n, i + 1, k.1, f);
      ExtendsCompose(names, reg, n, m, k.1, rest.1);
      var ws := WalkedPairs(names.parseTag, f, n);
      assert ws[i] == (k.0, v.0);
      SuffixCons(ws, i);
    }
  }

  /** A suffix of a sequence is its first element followed by the rest. */
  lemma SuffixCons<T>(ws: seq<T>, i: nat)
    requires i < |ws|
    ensures ws[i..] == [ws[i]] + ws[i + 1..]
  {
  }

  /** One dict entry: its value walked with `m`, then its key with the map the
      value left behind. */
  lemma EntryCachedIsWalk(names: Naming, reg: Registry, n: Node, i: nat, m: Overrides, f: Tag -> Result<string, Error>)
    requires n.Map? && i < |n.entries|
    requires forall t :: f(t) == Lookup(names, reg, m, t)
    ensures var v := WalkCached(names, reg, n.entries[i].1, m);
            var k := WalkCached(names, reg, n.entries[i].0, v.1);
            && v.0 == Walk(names.parseTag, f, n.entries[i].1)
            && k.0 == Walk(names.parseTag, f, n.entries[i].0)
            && Extends(names, reg, n, m, k.1)
            && forall t :: f(t) == Lookup(names, reg, k.1, t)
    decreases n, 0
  {
    var e := n.entries[i];
    forall s | HasString(e.0, s) || HasString(e.1, s) ensures HasString(n, s) {
      assert 0 <= i < |n.entries| && (HasString(n.entries[i].0, s) || HasString(n.entries[i].1, s));
    }
    var v := WalkCached(names, reg, e.1, m);
    WalkCachedIsWalk(names, reg, e.1, m, f);
    ExtendsTransparent(names, reg, e.1, m, v.1);
    ExtendsTrans(names, reg, e.1, n, m, m, v.1);
    var k := WalkCached(names, reg, e.0, v.1);
    WalkCachedIsWalk(names, reg, e.0, v.1, f);
    ExtendsTransparent(names, reg, e.0, v.1, k.1);
    ExtendsTrans(names, reg, e.0, n, m, v.1, k.1);
  }

  /** A document with no `str` leaf that parses as a tag is returned as it is
      and the override map is not touched. */
  lemma WalkCachedNoTags(names: Naming, reg: Registry, n: Node, m: Overrides)
    requires WellFormed(n)
    requires forall s :: HasString(n, s) ==> names.parseTag(s).None?
    ensures WalkCached(names, reg, n, m) == (n, m)
  {
    var f := (t: Tag) => Lookup(names, reg, m, t);
    WalkCachedIsWalk(names, reg, n, m, f);
    WalkNoTags(names.parseTag, f, n);
    var m' := WalkCached(names, reg, n, m).1;
    assert forall t :: t in m' ==> t in m;
    assert m'.Keys == m.Keys;
    assert forall t :: t in m ==> m'[t] == m[t];
    assert m' == m;
  }

  /** Every cached digest stays fully qualified across a walk. */
  lemma WalkCachedQualified(names: Naming, reg: Registry, n: Node, m: Overrides)
    requires AllQualified(names, m)
    ensures AllQualified(names, WalkCached(names, reg, n, m).1)
  {
    var f := (t: Tag) => Lookup(names, reg, m, t);
    WalkCachedIsWalk(names, reg, n, m, f);
    var m' := WalkCached(names, reg, n, m).1;
    forall t | t in m' ensures names.isDigest(m'[t]) {
      if t !in m {
        FromRegistryQualified(names, reg, t);
      }
    }
  }

  /** After a walk, every tag the document mentions that resolves is in the
      map, so any later occurrence, in this document or the next, is a hit
      and does not go to the registry again. */
  lemma {:induction false} WalkCachedCaches(names: Naming, reg: Registry, n: Node, m: Overrides, t: Tag)
    requires Mentions(names, n, t)
    requires Lookup(names, reg, m, t).Ok?
    ensures t in WalkCached(names, reg, n, m).1
    decreases n, 2
  {
    var s :| HasString(n, s) && names.parseTag(s) == Some(t);
    match n
    case Map(es) =>
      var i :| 0 <= i < |es| && (HasString(es[i].0, s) || HasString(es[i].1, s));
      PairsCachedCaches(names, reg, n, 0, m, t, i);
    case List(xs) =>
      var i :| 0 <= i < |xs| && HasString(xs[i], s);
      ItemsCachedCaches(names, reg, n, 0, m, t, i);
    case Str(_) =>
  }

  lemma {:induction false} ItemsCachedCaches(names: Naming, reg: Registry, n: Node, i: nat, m: Overrides, t: Tag, j: nat)
    requires n.List? && i <= j < |n.items|
    requires Mentions(names, n.items[j], t) || t in m
    requires Lookup(names, reg, m, t).Ok?
    ensures t in ItemsCached(names, reg, n, i, m).1
    decreases n, 1, |n.items| - i
  {
    var y := WalkCached(names, reg, n.items[i], m);
    ItemCachedKeeps(names, reg, n, i, m, t);
    if i < j {
      ItemsCachedCaches(names, reg, n, i + 1, y.1, t, j);
    } else {
      if t !in m {
        WalkCachedCaches(names, reg, n.items[i], m, t);
      }
      if i + 1 < |n.items| {
        ItemsCachedCaches(names, reg, n, i + 1, y.1, t, i + 1);
      }
    }
    assert ItemsCached(names, reg, n, i, m).1 == ItemsCached(names, reg, n, i + 1, y.1).1;
  }

  lemma {:induction false} PairsCachedCaches(names: Naming, reg: Registry, n: Node, i: nat, m: Overrides, t: Tag, j: nat)
    requires n.Map? && i <= j < |n.entries|
    requires Mentions(names, n.entries[j].0, t) || Mentions(names, n.entries[j].1, t) || t in m
    requires Lookup(names, reg, m, t).Ok?
    ensures t in PairsCached(names, reg, n, i, m).1
    decreases n, 1, |n.entries| - i
  {
    var v := WalkCached(names, reg, n.entries[i].1, m);
    var k := WalkCached(names, reg, n.entries[i].0, v.1);
    EntryCachedKeeps(names, reg, n, i, m, t);
    if i < j {
      PairsCachedCaches(names, reg, n, i + 1, k.1, t, j);
    } else {
      EntryCachedCaches(names, reg, n, i, m, t);
      if i + 1 < |n.entries| {
        PairsCachedCaches(names, reg, n, i + 1, k.1, t, i + 1);
      }
    }
    assert PairsCached(names, reg, n, i, m).1 == PairsCached(names, reg, n, i + 1, k.1).1;
  }

  /** The dict entry that mentions a resolvable tag caches it, whether the
      mention is in the value (walked first) or in the key. */
  lemma EntryCachedCaches(names: Naming, reg: Registry, n: Node, i: nat, m: Overrides, t: Tag)
    requires n.Map? && i < |n.entries|
    requires Mentions(names, n.entries[i].0, t) || Mentions(names, n.entries[i].1, t) || t in m
    requires Lookup(names, reg, m, t).Ok?
    ensures var v := WalkCached(names, reg, n.entries[i].1, m);
            t in WalkCached(names, reg, n.entries[i].0, v.1).1
    decreases n, 0
  {
    var e := n.entries[i];
    var v := WalkCached(names, reg, e.1, m);
    WalkCachedIsWalk(names, reg, e.1, m, (t': Tag) => Lookup(names, reg, m, t'));
    ExtendsTransparent(names, reg, e.1, m, v.1);
    if t !in m && Mentions(names, e.1, t) {
      WalkCachedCaches(names, reg, e.1, m, t);
    }
    var k := WalkCached(names, reg, e.0, v.1);
    WalkCachedIsWalk(names, reg, e.0, v.1, (t': Tag) => Lookup(names, reg, v.1, t'));
    if t !in v.1 {
      WalkCachedCaches(names, reg, e.0, v.1, t);
    }
  }

  /** Walking one list item extends the map by answers for tags the list mentions. */
  lemma ItemCachedExtends(names: Naming, reg: Registry, n: Node, i: nat, m: Overrides)
    requires n.List? && i < |n.items|
    ensures Extends(names, reg, n, m, WalkCached(names, reg, n.items[i], m).1)
    decreases n, 0, 1
  {
    ItemCachedIsWalk(names, reg, n, i, m, (t: Tag) => Lookup(names, reg, m, t));
  }

  /** Walking one list item keeps a cached tag cached and its lookup unchanged. */
  lemma ItemCachedKeeps(names: Naming, reg: Registry, n: Node, i: nat, m: Overrides, t: Tag)
    requires n.List? && i < |n.items|
    ensures var y := WalkCached(names, reg, n.items[i], m);
            && (t in m ==> t in y.1)
            && Lookup(names, reg, y.1, t) == Lookup(names, reg, m, t)
  {
    ItemCachedIsWalk(names, reg, n, i, m, (t': Tag) => Lookup(names, reg, m, t'));
  }

  /** Walking one dict entry keeps a cached tag cached and its lookup unchanged. */
  lemma EntryCachedKeeps(names: Naming, reg: Registry, n: Node, i: nat, m: Overrides, t: Tag)
    requires n.Map? && i < |n.entries|
    ensures var v := WalkCached(names, reg, n.entries[i].1, m);
            var k := WalkCached(names, reg, n.entries[i].0, v.1);
            && (t in m ==> t in k.1)
            && Lookup(names, reg, k.1, t) == Lookup(names, reg, m, t)
  {
    EntryCachedIsWalk(names, reg, n, i, m, (t': Tag) => Lookup(names, reg, m, t'));
  }
}
