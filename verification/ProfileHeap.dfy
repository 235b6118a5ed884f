/** `get_profile_value` and `set_profile_value` on the mutable dictionaries they
    are given: the in-place walk refines the document values of ProfileDocument. */
module ProfileHeap {
  import opened Basics
  import opened Strings
  import opened ProfileDocument

  class DictNode {
    var entries: map<string, Value>

    constructor ()
      ensures entries == map[]
    {
      entries := map[];
    }
  }

  datatype Value = VNull | VAtom(id: int) | VDict(node: DictNode)

  /** A ghost index of a nested dictionary: every path that leads to a dictionary,
      with the object found there. */
  type Index = map<Path, DictNode>

  /** The contents of some dictionaries at some moment. */
  type Store = map<DictNode, map<string, Value>>

  ghost function Contents(at: Index): (h: Store)
    reads at.Values
    ensures forall p :: p in at ==> at[p] in h && h[at[p]] == at[p].entries
  {
    map n | n in at.Values :: n.entries
  }

  /** A dictionary entry at `p` is indexed one step further down. */
  ghost predicate DownLink(h: Store, at: Index, p: Path, k: string) {
    p in at ==>
      at[p] in h && (k in h[at[p]] && h[at[p]][k].VDict? ==> p + [k] in at && at[p + [k]] == h[at[p]][k].node)
  }

  /** A dictionary indexed at `p` stands in the one indexed one step further up. */
  ghost predicate UpLink(h: Store, at: Index, p: Path) {
    p in at && p != [] ==>
      var up, k := p[..|p| - 1], p[|p| - 1];
      up in at && at[up] in h && k in h[at[up]] && h[at[up]][k] == VDict(at[p])
  }

  ghost predicate Injective(at: Index) {
    forall p, q :: p in at && q in at && at[p] == at[q] ==> p == q
  }

  /** The objects of `at` form a tree below `root`: none is shared, each stands
      under its path in its parent, and the index misses none. */
  ghost predicate Tree(h: Store, at: Index, root: DictNode) {
    && [] in at && at[[]] == root
    && Injective(at)
    && (forall p, k {:trigger DownLink(h, at, p, k)} :: DownLink(h, at, p, k))
    && (forall p {:trigger UpLink(h, at, p)} :: UpLink(h, at, p))
  }

  /** The kind of a heap value and, where it is no dictionary, the value itself agree with `j`. */
  ghost predicate SameKind(x: Value, j: Json) {
    match x
    case VNull => j == Null
    case VAtom(id) => j == Atom(id)
    case VDict(_) => j.Dict?
  }

  /** `d` has a dictionary at `p`, with the same keys and kinds of entries as the object there. */
  ghost predicate ShowsAt(h: Store, at: Index, d: Json, p: Path) {
    p in at ==>
      && at[p] in h
      && Lookup(d, p).Some? && Lookup(d, p).value.Dict?
      && var e := Lookup(d, p).value.entries;
         h[at[p]].Keys == e.Keys && forall k :: k in e ==> SameKind(h[at[p]][k], e[k])
  }

  /** The tree holds the document `d`. */
  ghost predicate Shows(h: Store, at: Index, d: Json) {
    forall p {:trigger ShowsAt(h, at, d, p)} :: ShowsAt(h, at, d, p)
  }

  /** A value that may be a whole nested dictionary, with its index and document. */
  ghost predicate Holds(h: Store, x: Value, at: Index, d: Json) {
    if x.VDict? then Tree(h, at, x.node) && Shows(h, at, d) else at == map[] && SameKind(x, d)
  }

  lemma LookupSnoc(d: Json, p: Path, k: string)
    ensures Lookup(d, p + [k]) ==
      (var up := Lookup(d, p);
       if up.Some? && up.value.Dict? && k in up.value.entries then Some(up.value.entries[k]) else None)
    decreases |p|
  {
    if p == [] {
      assert (p + [k])[1..] == [];
    } else if d.Dict? && p[0] in d.entries {
      assert (p + [k])[1..] == p[1..] + [k];
      LookupSnoc(d.entries[p[0]], p[1..], k);
    }
  }

  lemma RootKind(h: Store, x: Value, at: Index, d: Json)
    requires Holds(h, x, at, d)
    ensures SameKind(x, d) && (x.VDict? ==> [] in at && at[[]] == x.node)
  {
    assert x.VDict? ==> ShowsAt(h, at, d, []);
  }

  predicate CanStep(x: Value, k: string)
    reads if x.VDict? then {x.node} else {}
  {
    x.VDict? && k in x.node.entries
  }

  /** The values met on the way from `w[0]` along the first parts of a path. */
  ghost predicate Walk(w: seq<Value>, p: Path)
    reads set i | 0 <= i < |w| && w[i].VDict? :: w[i].node
  {
    && 1 <= |w| <= |p| + 1
    && forall i :: 0 <= i < |w| - 1 ==> CanStep(w[i], p[i]) && w[i].node.entries[p[i]] == w[i + 1]
  }

  /** The walk goes as far as it can, and `r` is what stands at the end of the path, or null. */
  ghost predicate Finds(w: seq<Value>, p: Path, r: Value)
    reads set i | 0 <= i < |w| && w[i].VDict? :: w[i].node
  {
    Walk(w, p) && if |w| == |p| + 1 then r == w[|p|] else r == VNull && !CanStep(w[|w| - 1], p[|w| - 1])
  }

  /** The loop of `get_profile_value`, on any dictionaries, shared or cyclic: it
      walks as far as it can, and returns what stands at the end of the path. */
  method GetProfileValue(doc: Value, keyPath: string) returns (r: Value)
    ensures exists w :: Finds(w, Split(keyPath, '.'), r) && w[0] == doc
  {
    var parts := Split(keyPath, '.');
    r := doc;
    ghost var w := [doc];
    for i := 0 to |parts|
      invariant Walk(w, parts) && w[0] == doc && |w| == i + 1 && w[i] == r
    {
      if !r.VDict? || parts[i] !in r.node.entries {
        assert Finds(w, parts, VNull);
        return VNull;
      }
      r := r.node.entries[parts[i]];
      w := w + [r];
    }
    assert Finds(w, parts, r);
  }

  /** On a tree that holds a document, a walk passes the document's values. */
  lemma {:induction false} WalkShows(w: seq<Value>, p: Path, at: Index, d: Json, i: nat)
    requires Walk(w, p) && i < |w| && Holds(Contents(at), w[0], at, d)
    ensures w[i].VDict? ==> w[0].VDict? && p[..i] in at && w[i].node == at[p[..i]]
    ensures Lookup(d, p[..i]).Some? && SameKind(w[i], Lookup(d, p[..i]).value)
    decreases i
  {
    if i == 0 {
      RootKind(Contents(at), w[0], at, d);
    } else {
      WalkShows(w, p, at, d, i - 1);
      assert CanStep(w[i - 1], p[i - 1]);
      assert p[..i] == p[..i - 1] + [p[i - 1]];
      LookupSnoc(d, p[..i - 1], p[i - 1]);
      assert ShowsAt(Contents(at), at, d, p[..i - 1]) && DownLink(Contents(at), at, p[..i - 1], p[i - 1]);
    }
  }

  /** A path whose beginning leads nowhere leads nowhere. */
  lemma {:induction false} NoLookup(d: Json, p: Path, n: nat)
    requires n <= |p| && Lookup(d, p[..n]).None?
    ensures Lookup(d, p).None?
    decreases |p| - n
  {
    if n == |p| {
      assert p[..n] == p;
    } else {
      assert p[..n + 1] == p[..n] + [p[n]];
      LookupSnoc(d, p[..n], p[n]);
      NoLookup(d, p, n + 1);
    }
  }

  /** There what was got is the document's value. */
  lemma GetReads(w: seq<Value>, p: Path, r: Value, at: Index, d: Json)
    requires Finds(w, p, r) && Holds(Contents(at), w[0], at, d)
    ensures SameKind(r, Get(d, p))
    ensures r.VDict? ==> p in at && r.node == at[p]
  {
    var i := |w| - 1;
    WalkShows(w, p, at, d, i);
    if i == |p| {
      assert p[..i] == p;
    } else {
      assert p[..i + 1] == p[..i] + [p[i]];
      LookupSnoc(d, p[..i], p[i]);
      assert w[i].VDict? ==> ShowsAt(Contents(at), at, d, p[..i]);
      NoLookup(d, p, i + 1);
    }
  }

  /** From the same value along the same path there is one way to go. */
  lemma {:induction false} WalksAgree(w: seq<Value>, u: seq<Value>, p: Path, i: nat)
    requires Walk(w, p) && Walk(u, p) && w[0] == u[0] && i < |w| && i < |u|
    ensures w[i] == u[i]
  {
    if i == 0 {
    } else {
      WalksAgree(w, u, p, i - 1);
      assert CanStep(w[i - 1], p[i - 1]) && CanStep(u[i - 1], p[i - 1]);
    }
  }

  // ----- writing one entry -----

  /** The index after the entry at path `p` has been replaced by a value indexed by `inner`. */
  ghost function Splice(at: Index, p: Path, inner: Index): (r: Index)
    ensures forall q :: q in r <==> (q in at && !(p <= q)) || (p <= q && q[|p|..] in inner)
    ensures forall q :: q in r ==> r[q] == if p <= q then inner[q[|p|..]] else at[q]
    ensures r.Values <= at.Values + inner.Values
  {
    var paths := set r | r in inner :: p + r;
    var graft := map q | q in paths && p <= q && q[|p|..] in inner :: inner[q[|p|..]];
    assert forall q :: p <= q && q[|p|..] in inner ==> q in paths by {
      forall q | p <= q && q[|p|..] in inner
        ensures q in paths
      {
        var r := q[|p|..];
        assert q == p + r;
      }
    }
    (map q | q in at && !(p <= q) :: at[q]) + graft
  }

  /** The value indexed by `inner` shares no object with what remains of `at` once
      the entry at path `spot` is gone. */
  ghost predicate Apart(at: Index, spot: Path, inner: Index) {
    forall p, q :: p in at && q in inner && !(spot <= p) ==> at[p] != inner[q]
  }

  /** What it takes to set the entry `key` of the dictionary indexed at `pos` to
      the value `x`, and the store that results. */
  ghost predicate CanWrite(h: Store, at: Index, root: DictNode, pos: Path, key: string, x: Value, inner: Index) {
    && Tree(h, at, root) && pos in at
    && (if x.VDict? then Tree(h, inner, x.node) else inner == map[])
    && Apart(at, pos + [key], inner)
  }

  ghost function Written(h: Store, node: DictNode, key: string, x: Value): Store
    requires node in h
  {
    h[node := h[node][key := x]]
  }

  lemma SpliceInjective(at: Index, spot: Path, inner: Index)
    requires Injective(at) && Injective(inner)
    ensures Injective(Splice(at, spot, inner)) <==> Apart(at, spot, inner)
  {
    var at' := Splice(at, spot, inner);
    if Apart(at, spot, inner) {
      forall p, q | p in at' && q in at' && at'[p] == at'[q]
        ensures p == q
      {
        if spot <= p && spot <= q {
          assert p[|spot|..] == q[|spot|..];
          assert p == spot + p[|spot|..] && q == spot + q[|spot|..];
        }
      }
    } else {
      var p, q :| p in at && q in inner && !(spot <= p) && at[p] == inner[q];
      assert (spot + q)[|spot|..] == q;
      assert at'[p] == at'[spot + q];
    }
  }

  lemma DownLinkSpliced(h: Store, at: Index, root: DictNode, pos: Path, key: string, x: Value, inner: Index, p: Path,
                        k: string)
    requires CanWrite(h, at, root, pos, key, x, inner) && at[pos] in h
    ensures DownLink(Written(h, at[pos], key, x), Splice(at, pos + [key], inner), p, k)
  {
    var spot := pos + [key];
    var at' := Splice(at, spot, inner);
    if p in at' {
      if spot <= p {
        var r := p[|spot|..];
        assert DownLink(h, inner, r, k);
        assert p == spot + r && p + [k] == spot + (r + [k]);
        assert (p + [k])[|spot|..] == r + [k];
      } else {
        assert DownLink(h, at, p, k);
        assert (p + [k])[..|p|] == p && (p + [k])[|p|] == k;
        assert spot[..|pos|] == pos;
        if p == pos && k == key {
          assert p + [k] == spot && spot[|spot|..] == [];
        } else {
          assert !(spot <= p + [k]);
        }
      }
    }
  }

  lemma UpLinkBelow(h: Store, at: Index, root: DictNode, pos: Path, key: string, x: Value, inner: Index, r: Path)
    requires CanWrite(h, at, root, pos, key, x, inner) && at[pos] in h && r in inner
    ensures UpLink(Written(h, at[pos], key, x), Splice(at, pos + [key], inner), pos + [key] + r)
  {
    hide DownLink, Injective;
    var spot := pos + [key];
    var p := spot + r;
    assert p[|spot|..] == r;
    if r == [] {
      assert p == spot && spot[..|pos|] == pos;
    } else {
      assert UpLink(h, inner, r);
      var up := spot + r[..|r| - 1];
      assert p[..|p| - 1] == up && up[|spot|..] == r[..|r| - 1];
    }
  }

  lemma UpLinkBeside(h: Store, at: Index, root: DictNode, pos: Path, key: string, x: Value, inner: Index, p: Path)
    requires CanWrite(h, at, root, pos, key, x, inner) && at[pos] in h && p in at && !(pos + [key] <= p)
    ensures UpLink(Written(h, at[pos], key, x), Splice(at, pos + [key], inner), p)
  {
    var at' := Splice(at, pos + [key], inner);
    if p != [] {
      var up, k := p[..|p| - 1], p[|p| - 1];
      assert p == up + [k] && UpLink(h, at, p);
      assert !(pos + [key] <= up);
      assert at'[p] == at[p] && up in at' && at'[up] == at[up];
      if up == pos {
        assert k != key;
      } else {
        assert at[up] != at[pos];
      }
    }
  }

  /** Writing a value keeps the tree shape. */
  lemma SpliceKeepsTree(h: Store, at: Index, root: DictNode, pos: Path, key: string, x: Value, inner: Index)
    requires CanWrite(h, at, root, pos, key, x, inner) && at[pos] in h
    ensures Tree(Written(h, at[pos], key, x), Splice(at, pos + [key], inner), root)
  {
    hide DownLink, Injective, Written;
    var spot := pos + [key];
    var h', at' := Written(h, at[pos], key, x), Splice(at, spot, inner);
    SpliceInjective(at, spot, inner);
    forall p, k
      ensures DownLink(h', at', p, k)
    {
      DownLinkSpliced(h, at, root, pos, key, x, inner, p, k);
    }
    forall p
      ensures UpLink(h', at', p)
    {
      if p in at' {
        if spot <= p {
          assert p == spot + p[|spot|..];
          UpLinkBelow(h, at, root, pos, key, x, inner, p[|spot|..]);
        } else {
          UpLinkBeside(h, at, root, pos, key, x, inner, p);
        }
      }
    }
  }

  /** `at` shows the value as a tree of its own. */
  ghost predicate ValueTree(h: Store, x: Value, at: Index) {
    if x.VDict? then Tree(h, at, x.node) else at == map[]
  }

  /** The part of an index below a path. */
  ghost function Below(at: Index, p: Path): (r: Index)
    ensures forall q :: q in r <==> p + q in at
    ensures forall q :: q in r ==> r[q] == at[p + q]
  {
    var tails := set q | q in at && p <= q :: q[|p|..];
    assert forall q :: p + q in at ==> q in tails by {
      forall q | p + q in at
        ensures q in tails
      {
        assert (p + q)[|p|..] == q;
      }
    }
    assert forall q :: q in tails ==> p + q in at by {
      forall q | q in tails
        ensures p + q in at
      {
        var w :| w in at && p <= w && q == w[|p|..];
        assert w == p + q;
      }
    }
    map q | q in tails :: at[p + q]
  }

  /** Whatever index shows the written dictionaries as a tree has the objects that
      remain where they were. */
  lemma {:induction false} KeepsPlace(h: Store, at: Index, root: DictNode, pos: Path, key: string, x: Value,
                                      at': Index, p: Path)
    requires Tree(h, at, root) && pos in at && at[pos] in h
    requires Tree(Written(h, at[pos], key, x), at', root)
    requires p in at && !(pos + [key] <= p)
    ensures p in at' && at'[p] == at[p]
    decreases |p|
  {
    if p == [] {
    } else {
      var up, k := p[..|p| - 1], p[|p| - 1];
      assert p == up + [k] && UpLink(h, at, p);
      KeepsPlace(h, at, root, pos, key, x, at', up);
      assert DownLink(Written(h, at[pos], key, x), at', up, k);
      if up != pos {
        assert at[up] != at[pos];
      }
    }
  }

  lemma BelowInjective(at: Index, p: Path)
    requires Injective(at)
    ensures Injective(Below(at, p))
  {
    var b := Below(at, p);
    forall q, r | q in b && r in b && b[q] == b[r]
      ensures q == r
    {
      assert p + q == p + r;
      assert (p + q)[|p|..] == q && (p + r)[|p|..] == r;
    }
  }

  /** And what it has below the written entry shows the value as a tree of its own. */
  lemma BelowIsValue(h: Store, at: Index, root: DictNode, pos: Path, key: string, x: Value, at': Index)
    requires Tree(h, at, root) && pos in at && at[pos] in h && x.VDict?
    requires Tree(Written(h, at[pos], key, x), at', root)
    ensures Tree(h, Below(at', pos + [key]), x.node)
  {
    var spot, h' := pos + [key], Written(h, at[pos], key, x);
    var b := Below(at', spot);
    KeepsPlace(h, at, root, pos, key, x, at', pos);
    assert DownLink(h', at', pos, key) && spot + [] == spot;
    forall p, k
      ensures DownLink(h, b, p, k)
    {
      assert DownLink(h', at', spot + p, k);
      assert spot + p + [k] == spot + (p + [k]);
      assert spot + p != pos;
    }
    forall p
      ensures UpLink(h, b, p)
    {
      if p != [] {
        assert UpLink(h', at', spot + p);
        assert (spot + p)[..|spot + p| - 1] == spot + p[..|p| - 1];
        assert spot + p[..|p| - 1] != pos;
      }
    }
    BelowInjective(at', spot);
  }

  lemma BelowIsApart(h: Store, at: Index, root: DictNode, pos: Path, key: string, x: Value, at': Index)
    requires Tree(h, at, root) && pos in at && at[pos] in h
    requires Tree(Written(h, at[pos], key, x), at', root)
    ensures Apart(at, pos + [key], Below(at', pos + [key]))
  {
    var spot := pos + [key];
    forall p, q | p in at && q in Below(at', spot) && !(spot <= p)
      ensures at[p] != Below(at', spot)[q]
    {
      KeepsPlace(h, at, root, pos, key, x, at', p);
      assert p != spot + q;
    }
  }

  lemma NothingIsApart(at: Index, spot: Path)
    ensures Apart(at, spot, map[])
  {
  }

  /** After writing any value the dictionaries are still a tree, under some index,
      exactly when the value is a tree of its own that shares nothing with what
      remains. */
  lemma TreeKeptIffFits(h: Store, at: Index, root: DictNode, pos: Path, key: string, x: Value)
    requires Tree(h, at, root) && pos in at && at[pos] in h
    ensures (exists at' :: Tree(Written(h, at[pos], key, x), at', root)) <==>
      (exists u: Index :: ValueTree(h, x, u) && Apart(at, pos + [key], u))
  {
    hide Tree, Apart, Splice, Below;
    var h' := Written(h, at[pos], key, x);
    if inner :| ValueTree(h, x, inner) && Apart(at, pos + [key], inner) {
      SpliceKeepsTree(h, at, root, pos, key, x, inner);
    }
    if at' :| Tree(h', at', root) {
      if x.VDict? {
        BelowIsValue(h, at, root, pos, key, x, at');
        BelowIsApart(h, at, root, pos, key, x, at');
        assert ValueTree(h, x, Below(at', pos + [key]));
      } else {
        NothingIsApart(at, pos + [key]);
        assert ValueTree(h, x, map[]);
      }
    }
  }

  lemma TwiceIsNotInjective(h: Store, at: Index, root: DictNode, p: Path, child: DictNode)
    requires Tree(h, at, root) ==>
      && p in at && at[p] in h && "a" in h[at[p]] && "b" in h[at[p]]
      && h[at[p]]["a"] == VDict(child) && h[at[p]]["b"] == VDict(child)
    ensures !Tree(h, at, root)
  {
    if p in at && DownLink(h, at, p, "a") && DownLink(h, at, p, "b") {
      assert (p + ["a"])[|p|] != (p + ["b"])[|p|];
    }
  }

  /** A dictionary written under a second key of its parent leaves no tree. */
  lemma SharingLeavesNoTree(root: DictNode, child: DictNode) returns (h: Store, at: Index)
    requires root != child
    ensures Tree(h, at, root) && root in h && child in h && h[root] == map["a" := VDict(child)]
    ensures forall at' :: !Tree(Written(h, root, "b", VDict(child)), at', root)
  {
    h := map[root := map["a" := VDict(child)], child := map[]];
    at := map[[] := root, ["a"] := child];
    forall p, k
      ensures DownLink(h, at, p, k)
    {
      assert [] + ["a"] == ["a"];
    }
    forall p
      ensures UpLink(h, at, p)
    {
      assert ["a"][..0] == [];
    }
    forall at'
      ensures !Tree(Written(h, root, "b", VDict(child)), at', root)
    {
      TwiceIsNotInjective(Written(h, root, "b", VDict(child)), at', root, [], child);
    }
  }

  /** So does a fresh value that holds one dictionary under two keys, although it
      shares nothing with the document. */
  lemma DoublingLeavesNoTree(root: DictNode, double: DictNode, child: DictNode) returns (h: Store, at: Index)
    requires root != double && root != child && double != child
    ensures Tree(h, at, root) && at == map[[] := root] && root in h && double in h && child in h
    ensures h[double] == map["a" := VDict(child), "b" := VDict(child)]
    ensures forall at' :: !Tree(Written(h, root, "k", VDict(double)), at', root)
  {
    h := map[root := map[], double := map["a" := VDict(child), "b" := VDict(child)], child := map[]];
    at := map[[] := root];
    var h' := Written(h, root, "k", VDict(double));
    forall at'
      ensures !Tree(h', at', root)
    {
      if Tree(h', at', root) {
        assert DownLink(h', at', [], "k");
        assert [] + ["k"] == ["k"];
      }
      TwiceIsNotInjective(h', at', root, ["k"], child);
    }
  }

  /** Every beginning of an indexed path is indexed. */
  lemma {:induction false} PrefixIndexed(h: Store, at: Index, root: DictNode, p: Path, n: nat)
    requires Tree(h, at, root) && p in at && n <= |p|
    ensures p[..n] in at
    decreases |p| - n
  {
    if n == |p| {
      assert p[..n] == p;
    } else {
      PrefixIndexed(h, at, root, p, n + 1);
      assert UpLink(h, at, p[..n + 1]);
      assert p[..n + 1][..n] == p[..n];
    }
  }

  lemma AboveShown(h: Store, at: Index, root: DictNode, d: Json, pos: Path, key: string, x: Value, inner: Index,
                   v: Json, q: Path)
    requires CanWrite(h, at, root, pos, key, x, inner) && at[pos] in h && Shows(h, at, d) && SameKind(x, v)
    requires q in at && q <= pos
    ensures ShowsAt(Written(h, at[pos], key, x), at, Set(d, pos + [key], v), q)
  {
    var spot := pos + [key];
    var r := spot[|q|..];
    assert spot == q + r && r != [];
    GetSetAbove(d, q, r, v);
    assert ShowsAt(h, at, d, q);
    var e := Lookup(d, q).value.entries;
    if q == pos {
      assert r == [key];
    } else {
      var k := r[0];
      assert |q| < |pos| && pos[|q|] == k;
      PrefixIndexed(h, at, root, pos, |q| + 1);
      assert pos[..|q| + 1] == q + [k];
      assert UpLink(h, at, q + [k]);
      assert (q + [k])[..|q|] == q && (q + [k])[|q|] == k;
      assert e[k].Dict?;
    }
  }

  lemma BelowShown(h: Store, at: Index, root: DictNode, d: Json, pos: Path, key: string, x: Value, inner: Index,
                   v: Json, r: Path)
    requires CanWrite(h, at, root, pos, key, x, inner) && at[pos] in h && r in inner && ShowsAt(h, inner, v, r)
    ensures ShowsAt(Written(h, at[pos], key, x), Splice(at, pos + [key], inner), Set(d, pos + [key], v),
                    pos + [key] + r)
  {
    hide Tree, Lookup, Set, SameKind;
    var spot := pos + [key];
    assert (spot + r)[|spot|..] == r;
    GetSetBelow(d, spot, v, r);
  }

  lemma BesideShown(h: Store, at: Index, root: DictNode, d: Json, pos: Path, key: string, x: Value, inner: Index,
                    v: Json, q: Path)
    requires CanWrite(h, at, root, pos, key, x, inner) && at[pos] in h && ShowsAt(h, at, d, q)
    requires q in at && Diverge(pos + [key], q)
    ensures ShowsAt(Written(h, at[pos], key, x), Splice(at, pos + [key], inner), Set(d, pos + [key], v), q)
  {
    hide DownLink, UpLink, Lookup, Set, SameKind;
    GetSetDiverging(d, pos + [key], v, q);
    assert q != pos;
    assert at[q] != at[pos];
  }

  /** Writing a value at a path makes the tree hold the document with that value set. */
  lemma SpliceShows(h: Store, at: Index, root: DictNode, d: Json, pos: Path, key: string, x: Value, inner: Index,
                    v: Json)
    requires CanWrite(h, at, root, pos, key, x, inner) && at[pos] in h && Shows(h, at, d) && Holds(h, x, inner, v)
    ensures Shows(Written(h, at[pos], key, x), Splice(at, pos + [key], inner), Set(d, pos + [key], v))
  {
    hide Tree, Lookup, Set, SameKind, Written;
    var spot := pos + [key];
    var h', at', d' := Written(h, at[pos], key, x), Splice(at, spot, inner), Set(d, spot, v);
    RootKind(h, x, inner, v);
    forall q
      ensures ShowsAt(h', at', d', q)
    {
      if q in at' {
        if spot <= q {
          var r := q[|spot|..];
          assert q == spot + r;
          assert ShowsAt(h, inner, v, r);
          BelowShown(h, at, root, d, pos, key, x, inner, v, r);
        } else if q <= spot {
          assert q <= pos;
          AboveShown(h, at, root, d, pos, key, x, inner, v, q);
        } else {
          assert ShowsAt(h, at, d, q);
          BesideShown(h, at, root, d, pos, key, x, inner, v, q);
        }
      }
    }
  }

  // ----- set_profile_value -----

  /** What is known of an index only depends on the contents of its own objects. */
  lemma StoreMatters(h: Store, h': Store, x: Value, at: Index, d: Json)
    requires Holds(h, x, at, d)
    requires forall p :: p in at ==> at[p] in h' && (at[p] in h ==> h'[at[p]] == h[at[p]])
    ensures Holds(h', x, at, d)
  {
    if x.VDict? {
      forall p, k
        ensures DownLink(h', at, p, k)
      {
        assert DownLink(h, at, p, k);
      }
      forall p
        ensures UpLink(h', at, p) && ShowsAt(h', at, d, p)
      {
        assert UpLink(h, at, p) && ShowsAt(h, at, d, p);
      }
    }
  }

  lemma TreeMatters(h: Store, h': Store, at: Index, root: DictNode)
    requires Tree(h, at, root)
    requires forall p :: p in at ==> at[p] in h' && (at[p] in h ==> h'[at[p]] == h[at[p]])
    ensures Tree(h', at, root)
  {
    forall p, k
      ensures DownLink(h', at, p, k)
    {
      assert DownLink(h, at, p, k);
    }
    forall p
      ensures UpLink(h', at, p)
    {
      assert UpLink(h, at, p);
    }
  }

  ghost predicate Closed(h: Store) {
    forall n, k {:trigger h[n][k]} :: n in h && k in h[n] && h[n][k].VDict? ==> h[n][k].node in h
  }

  /** `h` says what its dictionaries hold now, and what they hold is in `h` too. */
  ghost predicate Snapshot(h: Store)
    reads h.Keys
  {
    Closed(h) && forall n :: n in h ==> n.entries == h[n]
  }

  /** A snapshot that covers a tree and a value; there always is one. */
  ghost predicate Covers(h: Store, at: Index, x: Value)
    reads h.Keys
  {
    Snapshot(h) && at.Values <= h.Keys && (x.VDict? ==> x.node in h)
  }

  /** A tree from a root within the snapshot stays within it. */
  lemma {:induction false} WithinSnapshot(h: Store, at: Index, root: DictNode, p: Path)
    requires Snapshot(h) && root in h && Tree(Contents(at), at, root) && p in at
    ensures at[p] in h
    decreases |p|
  {
    if p == [] {
    } else {
      assert UpLink(Contents(at), at, p);
      WithinSnapshot(h, at, root, p[..|p| - 1]);
    }
  }

  lemma InTree(h: Store, at: Index, root: DictNode, p: Path)
    requires Tree(h, at, root) && p in at
    ensures at[p] in h
  {
    assert DownLink(h, at, p, "");
  }

  /** The trees on the heap are those of the snapshot. */
  lemma TreesOfSnapshot(h: Store, root: DictNode)
    requires Snapshot(h) && root in h
    ensures (exists a: Index :: Tree(Contents(a), a, root)) <==> exists a :: Tree(h, a, root)
  {
    hide Tree;
    if a: Index :| Tree(Contents(a), a, root) {
      forall p | p in a
        ensures a[p] in h
      {
        WithinSnapshot(h, a, root, p);
      }
      TreeMatters(Contents(a), h, a, root);
    }
    if a :| Tree(h, a, root) {
      forall p | p in a
        ensures a[p] in h
      {
        InTree(h, a, root, p);
      }
      TreeMatters(h, Contents(a), a, root);
    }
  }

  lemma RootInTree(h: Store, at: Index, root: DictNode)
    requires Tree(h, at, root)
    ensures root in h
  {
    assert DownLink(h, at, [], "");
  }

  /** After the write of an entry on the heap, when `h` covered the tree and the value before. */
  lemma TreeIffFits(h: Store, at: Index, root: DictNode, pos: Path, key: string, x: Value)
    requires Closed(h) && at.Values <= h.Keys && (x.VDict? ==> x.node in h)
    requires Tree(h, at, root) && pos in at && at[pos] in h
    requires forall n :: n in h ==> n.entries == Written(h, at[pos], key, x)[n]
    ensures (exists a: Index :: Tree(Contents(a), a, root)) <==>
      (exists u: Index :: ValueTree(h, x, u) && Apart(at, pos + [key], u))
  {
    hide Tree;
    TreeKeptIffFits(h, at, root, pos, key, x);
    RootInTree(h, at, root);
    TreesOfSnapshot(Written(h, at[pos], key, x), root);
  }

  lemma WriteHolds(h: Store, at: Index, root: DictNode, d: Json, pos: Path, key: string, x: Value, inner: Index,
                   v: Json)
    requires Holds(h, VDict(root), at, d) && pos in at && at[pos] in h
    requires Holds(h, x, inner, v) && Apart(at, pos + [key], inner)
    ensures Holds(Written(h, at[pos], key, x), VDict(root), Splice(at, pos + [key], inner), Set(d, pos + [key], v))
  {
    hide DownLink, UpLink, ShowsAt, Injective, Apart, Set, Splice, Lookup, SameKind;
    SpliceKeepsTree(h, at, root, pos, key, x, inner);
    SpliceShows(h, at, root, d, pos, key, x, inner, v);
  }

  /** `node[key] = x` on the heap: a value that shows a document and shares nothing
      with what remains is set in the document. */
  method AssignEntry(node: DictNode, key: string, x: Value, ghost at: Index, ghost root: DictNode, ghost d: Json,
                     ghost pos: Path, ghost inner: Index, ghost v: Json)
    returns (ghost at': Index)
    requires Holds(Contents(at), VDict(root), at, d) && pos in at && at[pos] == node
    modifies node
    ensures node.entries == old(node.entries)[key := x]
    ensures at' == Splice(at, pos + [key], inner) && at'.Values <= at.Values + inner.Values
    ensures old(Holds(Contents(inner), x, inner, v)) && Apart(at, pos + [key], inner) ==>
      Holds(Contents(at'), VDict(root), at', Set(d, pos + [key], v))
  {
    hide Tree, Shows, Apart, Set, Splice, SameKind, Lookup;
    ghost var h, held := Contents(at) + Contents(inner), Contents(inner);
    assert forall n :: n in h ==> h[n] == n.entries;
    ghost var fits := Holds(held, x, inner, v) && Apart(at, pos + [key], inner);
    assert forall p :: p in inner ==> inner[p] in inner.Values;
    assert forall p :: p in at ==> at[p] in at.Values;
    StoreMatters(Contents(at), h, VDict(root), at, d);
    at' := Splice(at, pos + [key], inner);
    if fits {
      StoreMatters(held, h, x, inner, v);
      WriteHolds(h, at, root, d, pos, key, x, inner, v);
    }
    node.entries := node.entries[key := x];
    if fits {
      assert forall n :: n in h ==> n.entries == Written(h, node, key, x)[n];
      StoreMatters(Written(h, node, key, x), Contents(at'), VDict(root), at', Set(d, pos + [key], v));
    }
  }

  lemma CoveredTree(h: Store, at: Index, root: DictNode, d: Json, x: Value)
    requires Holds(Contents(at), VDict(root), at, d) && Covers(h, at, x)
    ensures Tree(h, at, root)
  {
    assert forall p :: p in at ==> at[p] in at.Values;
    TreeMatters(Contents(at), h, at, root);
  }

  /** `node[key] = x` on the heap, for any value. Where the value is a tree that
      shares nothing with what remains, the tree afterwards holds the document
      with the value set; otherwise there is no tree any more. */
  method WriteEntry(node: DictNode, key: string, x: Value, ghost at: Index, ghost root: DictNode, ghost d: Json,
                    ghost pos: Path, ghost all: Store, ghost inner: Index, ghost v: Json)
    returns (ghost at': Index)
    requires Holds(Contents(at), VDict(root), at, d) && pos in at && at[pos] == node
    modifies node
    ensures node.entries == old(node.entries)[key := x]
    ensures at' == Splice(at, pos + [key], inner) && at'.Values <= at.Values + inner.Values
    ensures old(Holds(Contents(inner), x, inner, v)) && Apart(at, pos + [key], inner) ==>
      Holds(Contents(at'), VDict(root), at', Set(d, pos + [key], v))
    ensures old(Covers(all, at, x)) ==>
      ((exists a: Index :: Tree(Contents(a), a, root)) <==>
       (exists u: Index :: ValueTree(all, x, u) && Apart(at, pos + [key], u)))
  {
    hide Holds, Tree, Apart, ValueTree, Closed, Set, Splice, SameKind, Lookup;
    ghost var covered := Covers(all, at, x);
    if covered {
      CoveredTree(all, at, root, d, x);
      assert at[pos] in at.Values;
    }
    at' := AssignEntry(node, key, x, at, root, d, pos, inner, v);
    if covered {
      TreeIffFits(all, at, root, pos, key, x);
    }
  }

  lemma OnlyTheNew(at: Index, parts: Path, i: nat, node: DictNode)
    requires i < |parts| - 1
    ensures var r := Splice(at, parts[..i + 1], map[[] := node]);
      forall q :: q in r ==> (q in at && r[q] == at[q]) || (r[q] == node && q < parts)
  {
    var r := Splice(at, parts[..i + 1], map[[] := node]);
    forall q | q in r && parts[..i + 1] <= q
      ensures q < parts && r[q] == node
    {
      assert q == parts[..i + 1] + q[i + 1..];
    }
  }

  /** Something is indexed below an entry only if it is a dictionary. */
  lemma NothingBelow(h: Store, at: Index, root: DictNode, p: Path, k: string)
    requires Tree(h, at, root) && p in at && at[p] in h
    ensures forall q :: q in at && p + [k] <= q ==> k in h[at[p]] && h[at[p]][k].VDict?
  {
    forall q | q in at && p + [k] <= q
      ensures k in h[at[p]] && h[at[p]][k].VDict?
    {
      PrefixIndexed(h, at, root, q, |p| + 1);
      assert q[..|p| + 1] == p + [k];
      assert UpLink(h, at, p + [k]);
      assert (p + [k])[..|p|] == p && (p + [k])[|p|] == k;
    }
  }

  lemma StepDown(h: Store, at: Index, root: DictNode, p: Path, k: string)
    requires Tree(h, at, root) && p in at && at[p] in h && k in h[at[p]] && h[at[p]][k].VDict?
    ensures p + [k] in at && at[p + [k]] == h[at[p]][k].node
  {
    assert DownLink(h, at, p, k);
  }

  lemma HoldsEmpty(h: Store, node: DictNode)
    requires node in h && h[node] == map[]
    ensures Holds(h, VDict(node), map[[] := node], EMPTY)
  {
  }

  /** Where the heap has no dictionary yet, making an empty one first does not
      change what the whole write amounts to. */
  lemma MakeRoom(h: Store, root: DictNode, at: Index, d: Json, parts: Path, i: nat, v: Json)
    requires Tree(h, at, root) && Shows(h, at, d) && i < |parts| - 1 && parts[..i] in at && at[parts[..i]] in h
    requires var e := h[at[parts[..i]]]; parts[i] !in e || !e[parts[i]].VDict?
    ensures Set(Set(d, parts[..i + 1], EMPTY), parts, v) == Set(d, parts, v)
  {
    var here := parts[..i];
    assert parts[..i + 1] == here + [parts[i]];
    assert ShowsAt(h, at, d, here);
    LookupSnoc(d, here, parts[i]);
    assert parts == parts[..i + 1] + parts[i + 1..];
    SetThrough(d, parts[..i + 1], parts[i + 1..], v);
  }

  /** One round of the loop: step into the dictionary under `part`, after making
      an empty one if there is none. */
  method Enter(node: DictNode, part: string, ghost at: Index, ghost root: DictNode, ghost d: Json,
               ghost parts: Path, ghost i: nat, ghost v: Json)
    returns (child: DictNode, ghost at': Index, ghost d': Json)
    requires Holds(Contents(at), VDict(root), at, d)
    requires i < |parts| - 1 && parts[i] == part && parts[..i] in at && at[parts[..i]] == node
    modifies node
    ensures Holds(Contents(at'), VDict(root), at', d')
    ensures parts[..i + 1] in at' && at'[parts[..i + 1]] == child
    ensures Set(d', parts, v) == Set(d, parts, v)
    ensures forall p :: p in at' ==> (p in at && at'[p] == at[p]) || (fresh(at'[p]) && p < parts)
    ensures forall p :: p in at ==> p in at' && at'[p] == at[p]
    ensures old(part in node.entries && node.entries[part].VDict?) ==>
      at' == at && d' == d && node.entries == old(node.entries)
  {
    hide Tree, Shows, Splice, Set, Lookup, SameKind;
    at', d' := at, d;
    ghost var here := parts[..i];
    assert parts[..i + 1] == here + [part];
    if part !in node.entries || !node.entries[part].VDict? {
      var empty := new DictNode();
      ghost var bare: Index := map[[] := empty];
      assert bare[[]] == empty;
      HoldsEmpty(Contents(bare), empty);
      MakeRoom(Contents(at), root, at, d, parts, i, v);
      OnlyTheNew(at, parts, i, empty);
      NothingBelow(Contents(at), at, root, here, part);
      at' := AssignEntry(node, part, VDict(empty), at, root, d, here, bare, EMPTY);
      d' := Set(d, parts[..i + 1], EMPTY);
    }
    assert here in at' && at'[here] == node;
    StepDown(Contents(at'), at', root, here, part);
    child := node.entries[part].node;
  }

  /** Where the whole path leads somewhere, there is a dictionary to step into. */
  lemma OnThePath(h: Store, at: Index, root: DictNode, d: Json, parts: Path, i: nat)
    requires Holds(h, VDict(root), at, d) && i < |parts| - 1 && parts[..i] in at
    ensures at[parts[..i]] in h
    ensures Lookup(d, parts).Some? ==>
      var e := h[at[parts[..i]]]; parts[i] in e && e[parts[i]].VDict?
  {
    var here := parts[..i];
    assert ShowsAt(h, at, d, here);
    if Lookup(d, parts).Some? {
      if Lookup(d, parts[..i + 1]).None? {
        NoLookup(d, parts, i + 1);
      }
      if Lookup(d, parts[..i + 2]).None? {
        NoLookup(d, parts, i + 2);
      }
      assert parts[..i + 1] == here + [parts[i]] && parts[..i + 2] == parts[..i + 1] + [parts[i + 1]];
      LookupSnoc(d, here, parts[i]);
      LookupSnoc(d, parts[..i + 1], parts[i + 1]);
    }
  }

  /** The loop of `set_profile_value`: walks to the dictionary that is to hold the
      last part of the path. It assigns only to dictionaries of the document, and
      to none where the path leads somewhere. */
  method Descend(root: DictNode, parts: seq<string>, ghost at: Index, ghost d: Json, ghost v: Json)
    returns (node: DictNode, ghost at': Index, ghost d': Json)
    requires Holds(Contents(at), VDict(root), at, d) && parts != []
    modifies set p | p in at && p < parts :: at[p]
    ensures Holds(Contents(at'), VDict(root), at', d')
    ensures parts[..|parts| - 1] in at' && at'[parts[..|parts| - 1]] == node
    ensures Set(d', parts, v) == Set(d, parts, v)
    ensures forall p :: p in at' ==> (p in at && at'[p] == at[p]) || (fresh(at'[p]) && p < parts)
    ensures forall p :: p in at ==> p in at' && at'[p] == at[p]
    ensures Lookup(d, parts).Some? ==> at' == at && forall n :: n in at.Values ==> n.entries == old(n.entries)
  {
    hide Holds, Set, Lookup, SameKind;
    RootKind(Contents(at), VDict(root), at, d);
    node, at', d' := root, at, d;
    for i := 0 to |parts| - 1
      invariant Holds(Contents(at'), VDict(root), at', d')
      invariant forall p :: p in at' ==> (p in at && at'[p] == at[p]) || (fresh(at'[p]) && p < parts)
      invariant forall p :: p in at ==> p in at' && at'[p] == at[p]
      invariant parts[..i] in at' && at'[parts[..i]] == node
      invariant Set(d', parts, v) == Set(d, parts, v)
      invariant Lookup(d, parts).Some? ==>
        at' == at && d' == d && forall n :: n in at.Values ==> n.entries == old(n.entries)
    {
      assert parts[..i] < parts;
      OnThePath(Contents(at'), at', root, d', parts, i);
      node, at', d' := Enter(node, parts[i], at', root, d', parts, i, v);
    }
  }

  /** The walk over dictionaries that stand in each other. */
  lemma WalkAlong(nodes: seq<DictNode>, p: Path, value: Value) returns (w: seq<Value>)
    requires p != [] && |nodes| == |p|
    requires forall i :: 0 <= i < |p| - 1 ==> p[i] in nodes[i].entries && nodes[i].entries[p[i]] == VDict(nodes[i + 1])
    requires p[|p| - 1] in nodes[|p| - 1].entries && nodes[|p| - 1].entries[p[|p| - 1]] == value
    ensures Walk(w, p) && |w| == |p| + 1 && w[0] == VDict(nodes[0]) && w[|p|] == value
  {
    w := seq(|p| + 1, i requires 0 <= i <= |p| => if i == |p| then value else VDict(nodes[i]));
    forall i | 0 <= i < |p|
      ensures CanStep(w[i], p[i]) && w[i].node.entries[p[i]] == w[i + 1]
    {
    }
  }

  /** The dictionaries on the way to an indexed path. */
  lemma PathNodes(h: Store, at: Index, root: DictNode, d: Json, p: Path) returns (nodes: seq<DictNode>)
    requires Holds(h, VDict(root), at, d) && p in at
    ensures |nodes| == |p| + 1 && nodes[0] == root && nodes[|p|] == at[p]
    ensures forall i :: 0 <= i < |p| ==>
      && nodes[i] != at[p] && nodes[i] in at.Values && nodes[i] in h
      && p[i] in h[nodes[i]] && h[nodes[i]][p[i]] == VDict(nodes[i + 1])
  {
    forall i | 0 <= i <= |p|
      ensures p[..i] in at
    {
      PrefixIndexed(h, at, root, p, i);
    }
    nodes := seq(|p| + 1, i requires 0 <= i <= |p| => at[p[..i]]);
    assert p[..|p|] == p;
    forall i | 0 <= i < |p|
      ensures nodes[i] != at[p] && nodes[i] in h && p[i] in h[nodes[i]] && h[nodes[i]][p[i]] == VDict(nodes[i + 1])
    {
      assert p[..i] != p;
      assert UpLink(h, at, p[..i + 1]);
      assert p[..i + 1][..i] == p[..i];
    }
  }

  /** The last assignment of `set_profile_value`. */
  method PutLast(node: DictNode, parts: seq<string>, value: Value, ghost at: Index, ghost root: DictNode, ghost d: Json,
                 ghost all: Store, ghost inner: Index, ghost v: Json)
    returns (ghost at': Index, ghost w: seq<Value>)
    requires parts != [] && Holds(Contents(at), VDict(root), at, d)
    requires parts[..|parts| - 1] in at && at[parts[..|parts| - 1]] == node
    modifies node
    ensures node.entries == old(node.entries)[parts[|parts| - 1] := value]
    ensures at'.Values <= at.Values + inner.Values
    ensures old(Holds(Contents(inner), value, inner, v)) && Apart(at, parts, inner) ==>
      Holds(Contents(at'), VDict(root), at', Set(d, parts, v))
    ensures old(Covers(all, at, value)) ==>
      ((exists a: Index :: Tree(Contents(a), a, root)) <==>
       (exists u: Index :: ValueTree(all, value, u) && Apart(at, parts, u)))
    ensures Walk(w, parts) && |w| == |parts| + 1 && w[0] == VDict(root) && w[|parts|] == value
  {
    hide Holds, Tree, Apart, Covers, Walk, Splice, Set, Lookup, SameKind;
    var last := |parts| - 1;
    assert parts[..last] + [parts[last]] == parts;
    assert at[parts[..last]] in at.Values;
    ghost var nodes := PathNodes(Contents(at), at, root, d, parts[..last]);
    at' := WriteEntry(node, parts[last], value, at, root, d, parts[..last], all, inner, v);
    w := WalkAlong(nodes, parts, value);
  }

  /** Of the dictionaries of a tree, only the one at the end of the path is changed, in one entry. */
  ghost predicate AssignsOnly(at: Index, h: Store, h': Store, parts: Path, value: Value) {
    && parts != [] && parts[..|parts| - 1] in at && at[parts[..|parts| - 1]] in h
    && h' == Written(h, at[parts[..|parts| - 1]], parts[|parts| - 1], value)
  }

  lemma OneAssigned(at: Index, h: Store, parts: Path, value: Value)
    requires parts != [] && parts[..|parts| - 1] in at && h.Keys == at.Values
    requires var node := at[parts[..|parts| - 1]];
      forall n :: n in at.Values ==>
        n in h && n.entries == if n == node then h[n][parts[|parts| - 1] := value] else h[n]
    ensures AssignsOnly(at, h, Contents(at), parts, value)
  {
    assert at[parts[..|parts| - 1]] in at.Values;
  }

  /** What the dictionaries of `objs` hold now. */
  ghost function Entries(objs: set<DictNode>): (h: Store)
    reads objs
    ensures h.Keys == objs && forall n :: n in objs ==> h[n] == n.entries
  {
    map n | n in objs :: n.entries
  }

  /** From `g` to `h` only dictionaries above the path's end change, and only such are new. */
  ghost predicate OnlyAbove(g: Store, h: Store, at: Index, at': Index, parts: Path) {
    && at.Values <= g.Keys && h.Keys == g.Keys + at'.Values
    && (forall p :: p in at ==> p in at' && at'[p] == at[p])
    && (forall p :: p in at' ==> (p in at && at'[p] == at[p]) || (at'[p] !in g && p < parts))
    && (forall n :: n in g ==> h[n] == g[n] || exists p :: p in at && p < parts && at[p] == n)
  }

  lemma OffThePath(at: Index, at': Index, parts: Path, n: DictNode)
    requires n !in at'.Values && forall p :: p in at ==> p in at' && at'[p] == at[p]
    ensures !exists p :: p in at && p < parts && at[p] == n
  {
    forall p | p in at
      ensures at[p] != n
    {
      assert at'[p] in at'.Values;
    }
  }

  lemma MidClosed(g: Store, at: Index, root: DictNode, d: Json, at': Index, parts: Path)
    requires Closed(g) && Holds(Contents(at'), VDict(root), at', d)
    requires forall p :: p in at ==> p in at' && at'[p] == at[p]
    requires forall n :: n in g ==> n.entries == g[n] || exists p :: p in at && p < parts && at[p] == n
    ensures Snapshot(Entries(g.Keys + at'.Values))
  {
    var h: Store := Entries(g.Keys + at'.Values);
    forall n, k | n in h && k in h[n] && h[n][k].VDict?
      ensures h[n][k].node in h
    {
      if n in at'.Values {
        var p :| p in at' && at'[p] == n;
        assert DownLink(Contents(at'), at', p, k);
        assert at'[p + [k]] in at'.Values;
      } else {
        OffThePath(at, at', parts, n);
        assert n in g && n.entries == g[n];
      }
    }
  }

  lemma MidCovers(g: Store, at: Index, root: DictNode, d: Json, at': Index, parts: Path, x: Value)
    requires Closed(g) && at.Values <= g.Keys && (x.VDict? ==> x.node in g)
    requires Holds(Contents(at'), VDict(root), at', d)
    requires forall p :: p in at ==> p in at' && at'[p] == at[p]
    requires forall p :: p in at' ==> (p in at && at'[p] == at[p]) || (at'[p] !in g && p < parts)
    requires forall n :: n in g ==> n.entries == g[n] || exists p :: p in at && p < parts && at[p] == n
    ensures Covers(Entries(g.Keys + at'.Values), at', x)
    ensures OnlyAbove(g, Entries(g.Keys + at'.Values), at, at', parts)
  {
    MidClosed(g, at, root, d, at', parts);
  }

  /** A dictionary above the written entry is no part of a value that is apart. */
  lemma AboveIsApart(at: Index, parts: Path, inner: Index)
    ensures Apart(at, parts, inner) ==> forall p :: p in at && p < parts ==> at[p] !in inner.Values
  {
    forall p | p in at && p < parts
      ensures !(parts <= p)
    {
    }
  }

  lemma StillApart(at: Index, at': Index, parts: Path, inner: Index)
    requires forall p :: p in at' ==> (p in at && at'[p] == at[p]) || at'[p] !in inner.Values
    requires forall p :: p in at ==> p in at' && at'[p] == at[p]
    ensures Apart(at', parts, inner) <==> Apart(at, parts, inner)
  {
  }

  /** The walk down, and what it leaves as it was: of what `all` covers, only
      dictionaries above the path's end have changed. */
  method DescendCovered(root: DictNode, parts: seq<string>, ghost at: Index, ghost d: Json, ghost v: Json,
                        ghost all: Store, ghost x: Value, ghost inner: Index)
    returns (node: DictNode, ghost at': Index, ghost d': Json, ghost mid: Store)
    requires Holds(Contents(at), VDict(root), at, d) && parts != []
    modifies set p | p in at && p < parts :: at[p]
    ensures Holds(Contents(at'), VDict(root), at', d')
    ensures parts[..|parts| - 1] in at' && at'[parts[..|parts| - 1]] == node
    ensures Set(d', parts, v) == Set(d, parts, v)
    ensures forall p :: p in at' ==> (p in at && at'[p] == at[p]) || fresh(at'[p])
    ensures Apart(at', parts, inner) <==> Apart(at, parts, inner)
    ensures Apart(at, parts, inner) ==> Contents(inner) == old(Contents(inner))
    ensures old(Covers(all, at, x)) ==> Covers(mid, at', x) && OnlyAbove(all, mid, at, at', parts)
    ensures Lookup(d, parts).Some? ==> at' == at && forall n :: n in at.Values ==> n.entries == old(n.entries)
  {
    hide Holds, Apart, Closed, Set, Lookup, OnlyAbove;
    AboveIsApart(at, parts, inner);
    ghost var covered := Covers(all, at, x);
    node, at', d' := Descend(root, parts, at, d, v);
    StillApart(at, at', parts, inner);
    mid := Entries(all.Keys + at'.Values);
    if covered {
      assert forall n :: n in all ==> n.entries == all[n] || exists p :: p in at && p < parts && at[p] == n;
      MidCovers(all, at, root, d', at', parts, x);
    }
  }

  lemma FitsAfter(g: Store, h: Store, at: Index, at': Index, parts: Path, value: Value, inner: Index)
    requires OnlyAbove(g, h, at, at', parts)
    requires ValueTree(g, value, inner) && Apart(at, parts, inner)
    ensures ValueTree(h, value, inner) && Apart(at', parts, inner)
  {
    hide Tree;
    if value.VDict? {
      forall q | q in inner
        ensures inner[q] in g && h[inner[q]] == g[inner[q]]
      {
        InTree(g, inner, value.node, q);
        AboveIsApart(at, parts, inner);
        assert inner[q] in inner.Values;
      }
      TreeMatters(g, h, inner, value.node);
    }
  }

  lemma ApartIsOld(g: Store, at: Index, at': Index, parts: Path, inner: Index, q: Path)
    requires at.Values <= g.Keys && Apart(at', parts, inner) && q in inner && inner[q] in g.Keys + at'.Values
    requires forall p :: p in at' ==> (p in at && at'[p] == at[p]) || (at'[p] !in g && p < parts)
    ensures inner[q] in g
  {
    if inner[q] in at'.Values {
      var p :| p in at' && at'[p] == inner[q];
      assert p in at ==> at[p] in at.Values;
    }
  }

  lemma FitsBefore(g: Store, h: Store, at: Index, at': Index, parts: Path, value: Value, inner: Index)
    requires OnlyAbove(g, h, at, at', parts)
    requires ValueTree(h, value, inner) && Apart(at', parts, inner)
    ensures ValueTree(g, value, inner) && Apart(at, parts, inner)
  {
    hide Tree;
    if value.VDict? {
      forall q | q in inner
        ensures inner[q] in g && h[inner[q]] == g[inner[q]]
      {
        InTree(h, inner, value.node, q);
        AboveIsApart(at', parts, inner);
        assert inner[q] in inner.Values;
        ApartIsOld(g, at, at', parts, inner, q);
      }
      TreeMatters(h, g, inner, value.node);
    }
  }

  /** Between two stores that only differ in dictionaries above the path's end a
      value fits in both or in neither. */
  lemma SameFit(g: Store, h: Store, at: Index, at': Index, parts: Path, value: Value)
    requires OnlyAbove(g, h, at, at', parts)
    ensures (exists u: Index :: ValueTree(h, value, u) && Apart(at', parts, u)) <==>
      (exists u: Index :: ValueTree(g, value, u) && Apart(at, parts, u))
  {
    hide Tree, Apart, OnlyAbove;
    if inner :| ValueTree(g, value, inner) && Apart(at, parts, inner) {
      FitsAfter(g, h, at, at', parts, value, inner);
      assert ValueTree(h, value, inner) && Apart(at', parts, inner);
    }
    if inner :| ValueTree(h, value, inner) && Apart(at', parts, inner) {
      FitsBefore(g, h, at, at', parts, value, inner);
      assert ValueTree(g, value, inner) && Apart(at, parts, inner);
    }
  }

  /** `set_profile_value` on a dictionary: the loop and the last assignment. */
  method SetInDict(root: DictNode, parts: seq<string>, value: Value, ghost at: Index, ghost d: Json,
                   ghost all: Store, ghost inner: Index, ghost v: Json)
    returns (ghost at': Index, ghost w: seq<Value>)
    requires parts != [] && Holds(Contents(at), VDict(root), at, d)
    modifies set p | p in at && p < parts :: at[p]
    ensures Walk(w, parts) && |w| == |parts| + 1 && w[0] == VDict(root) && w[|parts|] == value
    ensures old(Covers(all, at, value)) ==>
      ((exists a: Index :: Tree(Contents(a), a, root)) <==>
       (exists u: Index :: ValueTree(all, value, u) && Apart(at, parts, u)))
    ensures old(Holds(Contents(inner), value, inner, v)) && Apart(at, parts, inner) ==>
      Holds(Contents(at'), VDict(root), at', Set(d, parts, v))
    ensures fresh(at'.Values - at.Values - inner.Values)
    ensures Lookup(d, parts).Some? ==> AssignsOnly(at, old(Contents(at)), Contents(at), parts, value)
  {
    hide Holds, Tree, Apart, ValueTree, Covers, OnlyAbove, Walk, Splice, Set, Lookup, SameKind, AssignsOnly;
    assert parts[..|parts| - 1] < parts;
    ghost var before, covered := Contents(at), Covers(all, at, value);
    var node, at1, d1, mid := DescendCovered(root, parts, at, d, v, all, value, inner);
    at', w := PutLast(node, parts, value, at1, root, d1, mid, inner, v);
    if covered {
      SameFit(all, mid, at, at1, parts, value);
    }
    if Lookup(d, parts).Some? {
      OneAssigned(at, before, parts, value);
    }
  }

  lemma NoDictionary(h: Store, x: Value, at: Index, d: Json)
    requires Holds(h, x, at, d) && !x.VDict?
    ensures at == map[]
  {
  }

  /** `set_profile_value`, for any value. On a document that is a dictionary, walking
      the path afterwards ends at the very value; the dictionaries are still a tree
      exactly when the value is a tree that shares none with what remains, and then
      hold the document with the value set; the value itself is untouched unless it
      contains a dictionary above the path's end; where the path leads somewhere, one
      entry of one dictionary is assigned. Any other root raises a type error and
      holds nothing that could change. */
  method SetProfileValue(doc: Value, keyPath: string, value: Value, ghost at: Index, ghost d: Json,
                         ghost all: Store, ghost inner: Index, ghost v: Json)
    returns (ok: bool, ghost at': Index, ghost w: seq<Value>)
    requires Holds(Contents(at), doc, at, d)
    modifies set p | p in at && p < Split(keyPath, '.') :: at[p]
    ensures ok == doc.VDict?
    ensures !ok ==> at' == at == map[]
    ensures ok ==>
      var parts := Split(keyPath, '.');
      && Walk(w, parts) && |w| == |parts| + 1 && w[0] == doc && w[|parts|] == value
      && (old(Covers(all, at, value)) ==>
            ((exists a: Index :: Tree(Contents(a), a, doc.node)) <==>
             (exists u: Index :: ValueTree(all, value, u) && Apart(at, parts, u))))
      && (old(Holds(Contents(inner), value, inner, v)) && Apart(at, parts, inner) ==>
            Holds(Contents(at'), doc, at', Set(d, parts, v)))
      && ((forall p :: p in at && p < parts ==> at[p] !in inner.Values) ==> Contents(inner) == old(Contents(inner)))
      && (Lookup(d, parts).Some? ==> AssignsOnly(at, old(Contents(at)), Contents(at), parts, value))
    ensures fresh(at'.Values - at.Values - inner.Values)
  {
    hide Holds, Tree, Apart, Covers, Walk, Set, Lookup, SameKind, AssignsOnly;
    w := [doc];
    if !doc.VDict? {
      NoDictionary(Contents(at), doc, at, d);
      return false, at, w;
    }
    at', w := SetInDict(doc.node, Split(keyPath, '.'), value, at, d, all, inner, v);
    ok := true;
  }

  /** A get finds what stands at the end of a whole walk. */
  lemma FindsTheEnd(w: seq<Value>, p: Path, doc: Value, value: Value, r: Value)
    requires Walk(w, p) && |w| == |p| + 1 && w[0] == doc && w[|p|] == value
    requires exists u :: Finds(u, p, r) && u[0] == doc
    ensures r == value
  {
    var u :| Finds(u, p, r) && u[0] == doc;
    WalksAgree(w, u, p, |u| - 1);
  }

  /** A get after a set at the same path returns the very value, whatever it is. */
  method SetThenGet(doc: Value, keyPath: string, value: Value, ghost at: Index, ghost d: Json)
    returns (ok: bool, r: Value)
    requires Holds(Contents(at), doc, at, d)
    modifies set p | p in at && p < Split(keyPath, '.') :: at[p]
    ensures ok == doc.VDict? && (ok ==> r == value)
  {
    hide Holds, Tree, ValueTree, Covers, Apart, AssignsOnly, Walk, Finds, Set, Lookup, SameKind;
    ghost var at', w;
    ok, at', w := SetProfileValue(doc, keyPath, value, at, d, map[], map[], Null);
    r := GetProfileValue(doc, keyPath);
    if ok {
      FindsTheEnd(w, Split(keyPath, '.'), doc, value, r);
    }
  }

  // ----- writing a value back where it was read -----

  lemma SameWritten(h: Store, node: DictNode, key: string, x: Value)
    requires node in h && key in h[node] && h[node][key] == x
    ensures Written(h, node, key, x) == h
  {
    assert h[node][key := x] == h[node];
  }

  /** Every path to a dictionary of the document is indexed. */
  lemma {:induction false} PathIndexed(h: Store, at: Index, root: DictNode, d: Json, p: Path, n: nat)
    requires Holds(h, VDict(root), at, d) && Lookup(d, p).Some? && Lookup(d, p).value.Dict?
    requires n <= |p| && p[..n] in at
    ensures p in at
    decreases |p| - n
  {
    if n == |p| {
      assert p[..n] == p;
    } else {
      var here := p[..n];
      assert ShowsAt(h, at, d, here) && DownLink(h, at, here, p[n]);
      assert p[..n + 1] == here + [p[n]];
      LookupSnoc(d, here, p[n]);
      if Lookup(d, p[..n + 1]).None? {
        NoLookup(d, p, n + 1);
      }
      if n + 1 == |p| {
        assert p[..n + 1] == p;
      } else {
        assert p[..n + 2] == p[..n + 1] + [p[n + 1]];
        LookupSnoc(d, p[..n + 1], p[n + 1]);
        if Lookup(d, p[..n + 2]).None? {
          NoLookup(d, p, n + 2);
        }
      }
      PathIndexed(h, at, root, d, p, n + 1);
    }
  }

  /** What was read is the entry of the dictionary one step up. */
  lemma EntryIs(h: Store, at: Index, root: DictNode, d: Json, parts: Path, value: Value)
    requires Holds(h, VDict(root), at, d) && parts != [] && Lookup(d, parts).Some?
    requires SameKind(value, Get(d, parts)) && (value.VDict? ==> parts in at && value.node == at[parts])
    ensures var up, k := parts[..|parts| - 1], parts[|parts| - 1];
      up in at && at[up] in h && k in h[at[up]] && h[at[up]][k] == value
  {
    var up, k := parts[..|parts| - 1], parts[|parts| - 1];
    assert parts == up + [k];
    LookupSnoc(d, up, k);
    PathIndexed(h, at, root, d, up, 0);
    assert ShowsAt(h, at, d, up) && DownLink(h, at, up, k);
  }

  /** Writing back what was read, the very object if it is a dictionary, leaves
      every dictionary of the document as it was. */
  method WriteBack(doc: Value, keyPath: string, ghost at: Index, ghost d: Json)
    requires Holds(Contents(at), doc, at, d) && doc.VDict? && Lookup(d, Split(keyPath, '.')).Some?
    modifies set p | p in at && p < Split(keyPath, '.') :: at[p]
    ensures Contents(at) == old(Contents(at))
  {
    hide Holds, Lookup, SameKind, Apart, Below, Get, Contents, Set, Tree, Written;
    ghost var parts := Split(keyPath, '.');
    ghost var h := Contents(at);
    var value := GetProfileValue(doc, keyPath);
    ghost var w :| Finds(w, parts, value) && w[0] == doc;
    GetReads(w, parts, value, at, d);
    EntryIs(h, at, doc.node, d, parts, value);
    var _, _, _ := SetProfileValue(doc, keyPath, value, at, d, map[], map[], Null);
    SameWritten(h, at[parts[..|parts| - 1]], parts[|parts| - 1], value);
  }
}
