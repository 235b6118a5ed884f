/** Snapshot trees of a VM: listing and depth-first search. */
module Snapshots {
  import opened Basics

  datatype Snap = Snap(id: string, name: string, description: string, created: Option<int>, state: string,
                       quiesced: bool, children: seq<Snap>)

  /** The nodes of a forest, each before its children. */
  function Preorder(forest: seq<Snap>): seq<Snap>
    decreases forest
  {
    if forest == [] then []
    else [forest[0]] + Preorder(forest[0].children) + Preorder(forest[1..])
  }

  // ----- the searches -----

  function FindByName(forest: seq<Snap>, name: string): Option<Snap>
    decreases forest
  {
    if forest == [] then None
    else if forest[0].name == name then Some(forest[0])
    else
      var found := FindByName(forest[0].children, name);
      if found.Some? then found else FindByName(forest[1..], name)
  }

  function FindName(forest: seq<Snap>, id: string): Option<string>
    decreases forest
  {
    if forest == [] then None
    else if forest[0].id == id then Some(forest[0].name)
    else
      var found := FindName(forest[0].children, id);
      if found.Some? then found else FindName(forest[1..], id)
  }

  /** The first element of `s` with a property. */
  function First(s: seq<Snap>, p: Snap -> bool): Option<Snap> {
    if s == [] then None else if p(s[0]) then Some(s[0]) else First(s[1..], p)
  }

  lemma {:induction false} FirstJoin(a: seq<Snap>, b: seq<Snap>, p: Snap -> bool)
    ensures First(a + b, p) == if First(a, p).Some? then First(a, p) else First(b, p)
  {
    if a == [] {
      assert a + b == b;
    } else {
      assert (a + b)[1..] == a[1..] + b;
      FirstJoin(a[1..], b, p);
    }
  }

  lemma {:induction false} FirstIs(s: seq<Snap>, p: Snap -> bool)
    ensures First(s, p).None? <==> forall n :: n in s ==> !p(n)
    ensures First(s, p).Some? ==> First(s, p).value in s && p(First(s, p).value)
  {
    if s == [] {
    } else {
      FirstIs(s[1..], p);
    }
  }

  /** Both searches return the first match in preorder. */
  lemma {:induction false} SearchIsFirstInPreorder(forest: seq<Snap>, name: string, id: string)
    ensures FindByName(forest, name) == First(Preorder(forest), (n: Snap) => n.name == name)
    ensures FindName(forest, id) ==
      (var n := First(Preorder(forest), (n: Snap) => n.id == id); if n.Some? then Some(n.value.name) else None)
    decreases forest
  {
    if forest == [] {
    } else {
      var top, below, beside := forest[0], Preorder(forest[0].children), Preorder(forest[1..]);
      SearchIsFirstInPreorder(top.children, name, id);
      SearchIsFirstInPreorder(forest[1..], name, id);
      FirstJoin([top] + below, beside, (n: Snap) => n.name == name);
      FirstJoin([top], below, (n: Snap) => n.name == name);
      FirstJoin([top] + below, beside, (n: Snap) => n.id == id);
      FirstJoin([top], below, (n: Snap) => n.id == id);
      assert [top][1..] == [];
    }
  }

  /** A search finds nothing exactly when no node of the forest matches. */
  lemma FoundIffPresent(forest: seq<Snap>, name: string, id: string)
    ensures FindByName(forest, name).None? <==> forall n :: n in Preorder(forest) ==> n.name != name
    ensures FindName(forest, id).None? <==> forall n :: n in Preorder(forest) ==> n.id != id
  {
    SearchIsFirstInPreorder(forest, name, id);
    FirstIs(Preorder(forest), (n: Snap) => n.name == name);
    FirstIs(Preorder(forest), (n: Snap) => n.id == id);
  }

  /** With unique ids, the id of the snapshot found by a name leads back to that name. */
  lemma NameIdRoundTrip(forest: seq<Snap>, name: string)
    requires forall a, b :: a in Preorder(forest) && b in Preorder(forest) && a.id == b.id ==> a == b
    requires FindByName(forest, name).Some?
    ensures FindName(forest, FindByName(forest, name).value.id) == Some(name)
  {
    var id := FindByName(forest, name).value.id;
    SearchIsFirstInPreorder(forest, name, id);
    FirstIs(Preorder(forest), (n: Snap) => n.name == name);
    FirstIs(Preorder(forest), (n: Snap) => n.id == id);
  }

  // ----- the listing -----

  datatype Row = Row(id: string, name: string, description: string, created: Option<string>, state: string,
                     quiesced: bool, children: seq<Row>)

  /** A creation time as text, where there is one; `iso` renders it. */
  function Created(created: Option<int>, iso: int -> string): Option<string> {
    if created.Some? then Some(iso(created.value)) else None
  }

  function ListRows(forest: seq<Snap>, iso: int -> string): (rows: seq<Row>)
    ensures |rows| == |forest|
    decreases forest
  {
    if forest == [] then []
    else
      var s := forest[0];
      var row := Row(s.id, s.name, s.description, Created(s.created, iso), s.state, s.quiesced,
                     ListRows(s.children, iso));
      [row] + ListRows(forest[1..], iso)
  }

  function RowPreorder(rows: seq<Row>): seq<Row>
    decreases rows
  {
    if rows == [] then []
    else [rows[0]] + RowPreorder(rows[0].children) + RowPreorder(rows[1..])
  }

  /** A row stands for a snapshot: same fields, and as many children. */
  ghost predicate Shows(r: Row, s: Snap, iso: int -> string) {
    && r.id == s.id && r.name == s.name && r.description == s.description
    && (match s.created
        case None => r.created == None
        case Some(time) => r.created == Some(iso(time)))
    && r.state == s.state && r.quiesced == s.quiesced
    && |r.children| == |s.children|
  }

  ghost predicate ShowsAll(rs: seq<Row>, ss: seq<Snap>, iso: int -> string) {
    |rs| == |ss| && forall i :: 0 <= i < |rs| ==> Shows(rs[i], ss[i], iso)
  }

  /** The listing keeps the shape of the forest and its preorder. */
  lemma {:induction false} ListingKeepsPreorder(forest: seq<Snap>, iso: int -> string)
    ensures ShowsAll(RowPreorder(ListRows(forest, iso)), Preorder(forest), iso)
    decreases forest
  {
    if forest == [] {
    } else {
      var rows := ListRows(forest, iso);
      assert rows[1..] == ListRows(forest[1..], iso);
      ListingKeepsPreorder(forest[0].children, iso);
      ListingKeepsPreorder(forest[1..], iso);
    }
  }
}
