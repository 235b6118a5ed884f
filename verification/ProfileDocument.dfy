/** Reading and writing nested keys of a configuration document
    (`get_profile_value`, `set_profile_value`), on document values. */
module ProfileDocument {
  import opened Basics

  /** A document value: null, a dictionary, or anything else (numbers, texts and
      lists, which the two functions never look into). */
  datatype Json = Null | Atom(id: int) | Dict(entries: map<string, Json>)

  type Path = seq<string>

  const EMPTY := Dict(map[])

  /** The value at a path, if the path leads to one. */
  function Lookup(d: Json, p: Path): Option<Json> {
    if p == [] then Some(d)
    else if d.Dict? && p[0] in d.entries then Lookup(d.entries[p[0]], p[1..])
    else None
  }

  /** What a reader gets: null when the path leads nowhere. */
  function Get(d: Json, p: Path): Json {
    Lookup(d, p).Or(Null)
  }

  function Entries(d: Json): map<string, Json> {
    if d.Dict? then d.entries else map[]
  }

  function Child(d: Json, k: string): Json {
    if k in Entries(d) then Entries(d)[k] else EMPTY
  }

  /** The document with `v` at path `p`; what stands in the way and is no
      dictionary gives way to one. */
  function Set(d: Json, p: Path, v: Json): (r: Json)
    requires p != []
    ensures r.Dict?
    decreases |p|
  {
    Dict(Entries(d)[p[0] := if |p| == 1 then v else Set(Child(d, p[0]), p[1..], v)])
  }

  /** Neither path is a prefix of the other. */
  ghost predicate Diverge(p: Path, q: Path) {
    !(p <= q) && !(q <= p)
  }

  lemma DivergeTail(p: Path, q: Path)
    requires Diverge(p, q)
    ensures p != [] && q != []
    ensures p[0] == q[0] ==> Diverge(p[1..], q[1..])
  {
    if p[0] == q[0] {
      assert [p[0]] + p[1..] == p && [q[0]] + q[1..] == q;
    }
  }

  // ----- the laws -----

  /** Reading below the written path reads in the written value. */
  lemma {:induction false} GetSetBelow(d: Json, p: Path, v: Json, r: Path)
    requires p != []
    ensures Lookup(Set(d, p, v), p + r) == Lookup(v, r)
    decreases |p|
  {
    assert (p + r)[1..] == p[1..] + r;
    if |p| == 1 {
      assert p[1..] + r == r;
    } else {
      GetSetBelow(Child(d, p[0]), p[1..], v, r);
    }
  }

  /** A set followed by a get at the same path returns the value. */
  lemma GetSet(d: Json, p: Path, v: Json)
    requires p != []
    ensures Get(Set(d, p, v), p) == v
  {
    assert p + [] == p;
    GetSetBelow(d, p, v, []);
  }

  /** A get at a diverging path is unchanged, even when the set replaced values
      that were no dictionaries. */
  lemma {:induction false} GetSetDiverging(d: Json, p: Path, v: Json, q: Path)
    requires Diverge(p, q)
    ensures p != [] && Lookup(Set(d, p, v), q) == Lookup(d, q)
    decreases |p|
  {
    DivergeTail(p, q);
    if p[0] == q[0] {
      GetSetDiverging(Child(d, p[0]), p[1..], v, q[1..]);
      if p[0] !in Entries(d) {
        assert Lookup(EMPTY, q[1..]) == None;
      }
    }
  }

  /** Above the written path, the dictionary that was there (or an empty one)
      carries the write. */
  lemma {:induction false} GetSetAbove(d: Json, q: Path, r: Path, v: Json)
    requires r != []
    ensures Lookup(Set(d, q + r, v), q) == Some(Set(Lookup(d, q).Or(EMPTY), r, v))
    decreases |q|
  {
    if q == [] {
      assert q + r == r;
    } else {
      assert (q + r)[1..] == q[1..] + r;
      GetSetAbove(Child(d, q[0]), q[1..], r, v);
      if q[0] !in Entries(d) {
        assert Lookup(EMPTY, q[1..]).Or(EMPTY) == EMPTY;
      }
    }
  }

  lemma SetStep(e: map<string, Json>, k: string, x: Json, p: Path, v: Json)
    requires |p| > 1 && p[0] == k
    ensures Set(Dict(e[k := x]), p, v) == Dict(e[k := Set(x, p[1..], v)])
  {
    assert e[k := x][k := Set(x, p[1..], v)] == e[k := Set(x, p[1..], v)];
  }

  /** A second set at the same path overwrites the first. */
  lemma {:induction false} SetSet(d: Json, p: Path, v: Json, w: Json)
    requires p != []
    ensures Set(Set(d, p, v), p, w) == Set(d, p, w)
    decreases |p|
  {
    if |p| == 1 {
    } else {
      SetSet(Child(d, p[0]), p[1..], v, w);
    }
  }

  /** Making room at the start of a path first changes nothing in the end, when
      no dictionary is there yet. */
  lemma {:induction false} SetThrough(d: Json, q: Path, r: Path, v: Json)
    requires q != [] && r != []
    requires !Lookup(d, q).Or(Null).Dict?
    ensures Set(Set(d, q, EMPTY), q + r, v) == Set(d, q + r, v)
    decreases |q|
  {
    assert (q + r)[1..] == q[1..] + r && (q + r)[0] == q[0];
    if |q| == 1 {
      assert q[1..] + r == r;
      assert Lookup(d, q) == if d.Dict? && q[0] in d.entries then Lookup(d.entries[q[0]], []) else None by {
        assert q[1..] == [];
      }
    } else {
      SetThrough(Child(d, q[0]), q[1..], r, v);
      SetStep(Entries(d), q[0], Set(Child(d, q[0]), q[1..], EMPTY), q + r, v);
    }
  }

  /** Sets at diverging paths commute. */
  lemma {:induction false} SetsCommute(d: Json, p: Path, v: Json, q: Path, w: Json)
    requires Diverge(p, q)
    ensures p != [] && q != [] && Set(Set(d, p, v), q, w) == Set(Set(d, q, w), p, v)
    decreases |p|
  {
    DivergeTail(p, q);
    if p[0] == q[0] {
      assert |p| > 1 && |q| > 1;
      var x := Child(d, p[0]);
      SetsCommute(x, p[1..], v, q[1..], w);
      SetStep(Entries(d), p[0], Set(x, p[1..], v), q, w);
      SetStep(Entries(d), p[0], Set(x, q[1..], w), p, v);
    } else {
      var e := Entries(d);
      var x := if |p| == 1 then v else Set(Child(d, p[0]), p[1..], v);
      var y := if |q| == 1 then w else Set(Child(d, q[0]), q[1..], w);
      assert e[p[0] := x][q[0] := y] == e[q[0] := y][p[0] := x];
    }
  }

  /** Writing back what is read changes nothing exactly when the path leads somewhere. */
  lemma {:induction false} SetGetIsNoOp(d: Json, p: Path)
    requires p != [] && d.Dict?
    ensures Set(d, p, Get(d, p)) == d <==> Lookup(d, p).Some?
    decreases |p|
  {
    if Lookup(d, p).Some? {
      if |p| == 1 {
        assert p[1..] == [];
      } else {
        var x, rest := d.entries[p[0]], p[1..];
        assert rest != [] && Lookup(x, rest).Some?;
        SetGetIsNoOp(x, rest);
      }
    } else {
      GetSetBelow(d, p, Get(d, p), []);
      assert p + [] == p;
    }
  }
}
