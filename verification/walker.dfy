/** The document walker of `Resolve` (k8s/resolver.py): a recursive rewrite of
    a loaded YAML document that replaces every `str` leaf naming an image tag
    by the digest the resolver gives for it, and leaves everything else alone. */
module Walker {
  import opened Wrappers
  import opened PyDict
  import opened Names

  /** Loaded scalars that are not `str`: YAML nulls, booleans, numbers, and
      Python 2 `unicode` strings (non-ASCII text), which the walker passes by. */
  datatype Scalar = Null | Bool(b: bool) | Int(i: int) | Float(repr: string) | Unicode(text: string)

  /** A loaded document: a dict (entries in iteration order), a list, a `str`,
      or any other scalar. */
  datatype Node =
    | Map(entries: seq<(Node, Node)>)
    | List(items: seq<Node>)
    | Str(s: string)
    | Other(value: Scalar)

  /** Every dict in the tree has distinct keys, as every Python dict does. */
  predicate WellFormed(n: Node)
    decreases n
  {
    match n
    case Map(es) =>
      && DistinctKeys(es)
      && forall i :: 0 <= i < |es| ==> WellFormed(es[i].0) && WellFormed(es[i].1)
    case List(xs) => forall i :: 0 <= i < |xs| ==> WellFormed(xs[i])
    case Str(_) => true
    case Other(_) => true
  }

  /** `s` is a `str` leaf of `n`, in a dict key, a dict value or a list item. */
  predicate HasString(n: Node, s: string)
    decreases n
  {
    match n
    case Map(es) => exists i :: 0 <= i < |es| && (HasString(es[i].0, s) || HasString(es[i].1, s))
    case List(xs) => exists i :: 0 <= i < |xs| && HasString(xs[i], s)
    case Str(x) => x == s
    case Other(_) => false
  }

  /** `walk_string`: try `Tag(s)` and then the resolver; if either fails the
      bare `except` hands back `s` itself. */
  function WalkString(parse: string -> Option<Tag>, resolve: Tag -> Result<string, Error>, s: string): (r: string)
    ensures r != s ==> parse(s).Some? && resolve(parse(s).value) == Ok(r)
    ensures parse(s).Some? && resolve(parse(s).value).Ok? ==> r == resolve(parse(s).value).value
  {
    match parse(s)
    case None => s
    case Some(t) =>
      match resolve(t)
      case Ok(d) => d
      case Err(_) => s
  }

  /** `walk`: dispatch on the kind of node. */
  function Walk(parse: string -> Option<Tag>, resolve: Tag -> Result<string, Error>, n: Node): (r: Node)
    ensures n.Map? <==> r.Map?
    ensures n.List? <==> r.List?
    ensures n.Str? <==> r.Str?
    ensures n.Other? ==> r == n
    ensures n.List? ==> |r.items| == |n.items|
    ensures n.Map? ==> |r.entries| <= |n.entries|
    decreases n, 1
  {
    match n
    case Map(_) => Map(FromPairs(WalkedPairs(parse, resolve, n)))
    case List(_) => List(WalkedItems(parse, resolve, n))
    case Str(s) => Str(WalkString(parse, resolve, s))
    case Other(_) => n
  }

  /** The items `walk_list` builds, each walked, in order. */
  function WalkedItems(parse: string -> Option<Tag>, resolve: Tag -> Result<string, Error>, n: Node): (ys: seq<Node>)
    requires n.List?
    ensures |ys| == |n.items|
    decreases n, 0
  {
    var xs := n.items;
    seq(|xs|, i requires 0 <= i < |xs| => Walk(parse, resolve, xs[i]))
  }

  /** The (key, value) pairs `walk_dict` feeds its comprehension, both walked,
      in iteration order. */
  function WalkedPairs(parse: string -> Option<Tag>, resolve: Tag -> Result<string, Error>, n: Node): (ps: seq<(Node, Node)>)
    requires n.Map?
    ensures |ps| == |n.entries|
    decreases n, 0
  {
    var es := n.entries;
    seq(|es|, i requires 0 <= i < |es| => (Walk(parse, resolve, es[i].0), Walk(parse, resolve, es[i].1)))
  }

  /** A list walks to a list of the same length whose items are the walked
      items, in order. */
  lemma WalkList(parse: string -> Option<Tag>, resolve: Tag -> Result<string, Error>, xs: seq<Node>)
    ensures Walk(parse, resolve, List(xs)).List?
    ensures |Walk(parse, resolve, List(xs)).items| == |xs|
    ensures forall i :: 0 <= i < |xs| ==> Walk(parse, resolve, List(xs)).items[i] == Walk(parse, resolve, xs[i])
  {
  }

  /** A dict walks to a dict, with distinct keys, whose keys are exactly the
      walked keys of the input. */
  lemma WalkMapKeys(parse: string -> Option<Tag>, resolve: Tag -> Result<string, Error>, es: seq<(Node, Node)>)
    ensures Walk(parse, resolve, Map(es)).Map?
    ensures DistinctKeys(Walk(parse, resolve, Map(es)).entries)
    ensures Keys(Walk(parse, resolve, Map(es)).entries) == set i | 0 <= i < |es| :: Walk(parse, resolve, es[i].0)
  {
    var ps := WalkedPairs(parse, resolve, Map(es));
    forall k | k in Keys(ps) ensures exists i :: 0 <= i < |es| && Walk(parse, resolve, es[i].0) == k {
      var i :| 0 <= i < |ps| && ps[i].0 == k;
    }
    forall i | 0 <= i < |es| ensures Walk(parse, resolve, es[i].0) in Keys(ps) {
      assert ps[i].0 == Walk(parse, resolve, es[i].0);
    }
  }

  /** A walked key holds the walked value of the LAST entry whose key walks to
      it: two keys that resolve alike collapse into one entry. */
  lemma WalkMapLastWins(parse: string -> Option<Tag>, resolve: Tag -> Result<string, Error>, es: seq<(Node, Node)>, i: nat)
    requires i < |es|
    requires forall j :: i < j < |es| ==> Walk(parse, resolve, es[j].0) != Walk(parse, resolve, es[i].0)
    ensures Get(Walk(parse, resolve, Map(es)).entries, Walk(parse, resolve, es[i].0)) == Some(Walk(parse, resolve, es[i].1))
  {
    var ps := WalkedPairs(parse, resolve, Map(es));
    assert forall j :: i < j < |ps| ==> ps[j].0 == Walk(parse, resolve, es[j].0);
    FromPairsLastWins(ps, i);
  }

  /** When no two keys walk to the same key, the walked dict is the walked
      entries, in order. */
  lemma WalkMapInjective(parse: string -> Option<Tag>, resolve: Tag -> Result<string, Error>, es: seq<(Node, Node)>)
    requires forall i, j :: 0 <= i < j < |es| ==> Walk(parse, resolve, es[i].0) != Walk(parse, resolve, es[j].0)
    ensures |Walk(parse, resolve, Map(es)).entries| == |es|
    ensures forall i :: 0 <= i < |es| ==>
      Walk(parse, resolve, Map(es)).entries[i] == (Walk(parse, resolve, es[i].0), Walk(parse, resolve, es[i].1))
  {
    var ps := WalkedPairs(parse, resolve, Map(es));
    assert DistinctKeys(ps);
    FromPairsDistinct(ps);
  }

  /** Walking a tree in which every `str` leaf is already left alone by
      `walk_string` gives back the same tree. */
  lemma {:induction false} WalkFixed(parse: string -> Option<Tag>, resolve: Tag -> Result<string, Error>, n: Node)
    requires WellFormed(n)
    requires forall s :: HasString(n, s) ==> WalkString(parse, resolve, s) == s
    ensures Walk(parse, resolve, n) == n
    decreases n
  {
    match n
    case Map(es) =>
      var ps := WalkedPairs(parse, resolve, n);
      forall i | 0 <= i < |es| ensures ps[i] == es[i] {
        forall s | HasString(es[i].0, s) || HasString(es[i].1, s) ensures HasString(n, s) {
          assert 0 <= i < |es| && (HasString(es[i].0, s) || HasString(es[i].1, s));
        }
        WalkFixed(parse, resolve, es[i].0);
        WalkFixed(parse, resolve, es[i].1);
      }
      assert ps == es;
      FromPairsDistinct(es);
    case List(xs) =>
      forall i | 0 <= i < |xs| ensures Walk(parse, resolve, xs[i]) == xs[i] {
        forall s | HasString(xs[i], s) ensures HasString(n, s) {
          assert 0 <= i < |xs| && HasString(xs[i], s);
        }
        WalkFixed(parse, resolve, xs[i]);
      }
    case Str(s) =>
      assert HasString(n, s);
    case Other(_) =>
  }

  /** If no `str` leaf parses as a tag, walking changes nothing: the resolver
      is never consulted. */
  lemma WalkNoTags(parse: string -> Option<Tag>, resolve: Tag -> Result<string, Error>, n: Node)
    requires WellFormed(n)
    requires forall s :: HasString(n, s) ==> parse(s).None?
    ensures Walk(parse, resolve, n) == n
  {
    WalkFixed(parse, resolve, n);
  }

  /** The walk's output is a tree of dicts with distinct keys, whatever the input. */
  lemma {:induction false} WalkWellFormed(parse: string -> Option<Tag>, resolve: Tag -> Result<string, Error>, n: Node)
    ensures WellFormed(Walk(parse, resolve, n))
    decreases n
  {
    match n
    case Map(es) =>
      var ps := WalkedPairs(parse, resolve, n);
      var r := FromPairs(ps);
      forall i | 0 <= i < |r| ensures WellFormed(r[i].0) && WellFormed(r[i].1) {
        assert r[i] in ps;
        var j :| 0 <= j < |ps| && ps[j] == r[i];
        WalkWellFormed(parse, resolve, es[j].0);
        WalkWellFormed(parse, resolve, es[j].1);
      }
    case List(xs) =>
      forall i | 0 <= i < |xs| ensures WellFormed(Walk(parse, resolve, xs[i])) {
        WalkWellFormed(parse, resolve, xs[i]);
      }
    case Str(_) =>
    case Other(_) =>
  }

  /** Every `str` leaf of the output is `walk_string` of a `str` leaf of the input. */
  lemma {:induction false} WalkStringOrigin(parse: string -> Option<Tag>, resolve: Tag -> Result<string, Error>, n: Node, s': string)
    returns (s: string)
    requires HasString(Walk(parse, resolve, n), s')
    ensures HasString(n, s) && WalkString(parse, resolve, s) == s'
    decreases n
  {
    match n
    case Map(es) =>
      var ps := WalkedPairs(parse, resolve, n);
      var r := FromPairs(ps);
      var i :| 0 <= i < |r| && (HasString(r[i].0, s') || HasString(r[i].1, s'));
      assert r[i] in ps;
      var j :| 0 <= j < |ps| && ps[j] == r[i];
      if HasString(r[i].0, s') {
        s := WalkStringOrigin(parse, resolve, es[j].0, s');
      } else {
        s := WalkStringOrigin(parse, resolve, es[j].1, s');
      }
      assert 0 <= j < |es| && (HasString(es[j].0, s) || HasString(es[j].1, s));
    case List(xs) =>
      var ys := WalkedItems(parse, resolve, n);
      var i :| 0 <= i < |ys| && HasString(ys[i], s');
      assert ys[i] == Walk(parse, resolve, xs[i]);
      s := WalkStringOrigin(parse, resolve, xs[i], s');
      assert 0 <= i < |xs| && HasString(xs[i], s);
    case Str(x) =>
      s := x;
  }

  /** The resolver's answers never parse as tags themselves. */
  ghost predicate DigestsAreNotTags(parse: string -> Option<Tag>, resolve: Tag -> Result<string, Error>) {
    forall t :: resolve(t).Ok? ==> parse(resolve(t).value).None?
  }

  /** When the resolver's answers never parse as tags, a second walk changes
      nothing: resolution is idempotent. */
  lemma {:induction false} WalkIdempotent(parse: string -> Option<Tag>, resolve: Tag -> Result<string, Error>, n: Node)
    requires DigestsAreNotTags(parse, resolve)
    ensures Walk(parse, resolve, Walk(parse, resolve, n)) == Walk(parse, resolve, n)
  {
    var w := Walk(parse, resolve, n);
    WalkWellFormed(parse, resolve, n);
    forall s' | HasString(w, s') ensures WalkString(parse, resolve, s') == s' {
      var s := WalkStringOrigin(parse, resolve, n, s');
    }
    WalkFixed(parse, resolve, w);
  }

  /** The walk consults the resolver only on tags parsed from the tree's own
      `str` leaves: two resolvers that agree there give the same output. */
  lemma {:induction false} WalkAgree(parse: string -> Option<Tag>, f: Tag -> Result<string, Error>, g: Tag -> Result<string, Error>, n: Node)
    requires forall s :: HasString(n, s) && parse(s).Some? ==> f(parse(s).value) == g(parse(s).value)
    ensures Walk(parse, f, n) == Walk(parse, g, n)
    decreases n
  {
    match n
    case Map(es) =>
      forall i | 0 <= i < |es|
        ensures Walk(parse, f, es[i].0) == Walk(parse, g, es[i].0)
        ensures Walk(parse, f, es[i].1) == Walk(parse, g, es[i].1)
      {
        forall s | HasString(es[i].0, s) || HasString(es[i].1, s) ensures HasString(n, s) {
          assert 0 <= i < |es| && (HasString(es[i].0, s) || HasString(es[i].1, s));
        }
        WalkAgree(parse, f, g, es[i].0);
        WalkAgree(parse, f, g, es[i].1);
      }
      assert WalkedPairs(parse, f, n) == WalkedPairs(parse, g, n);
    case List(xs) =>
      forall i | 0 <= i < |xs| ensures Walk(parse, f, xs[i]) == Walk(parse, g, xs[i]) {
        forall s | HasString(xs[i], s) ensures HasString(n, s) {
          assert 0 <= i < |xs| && HasString(xs[i], s);
        }
        WalkAgree(parse, f, g, xs[i]);
      }
    case Str(s) =>
      assert HasString(n, s);
    case Other(_) =>
  }
}
