/** The archive container of ginac/archive.cpp: the atom table that interns
    strings, the node table that shares nodes of one expression, the named
    roots, the property lookups of a node and the cache of unarchived
    expressions.  Table operations are specified by functions on the
    tables; the class methods perform them in place with the loops of the
    C++ code. */
module Archives {
  import opened Outcomes
  import opened Varint
  import opened ArchiveFormat

  // ------------------------------------------------------------ atom table

  /** The position of the first `x` in `xs`, or `|xs|` when there is none. */
  function IndexOf<T(==)>(xs: seq<T>, x: T): (r: nat)
    ensures r <= |xs|
    ensures r < |xs| ==> xs[r] == x
    ensures forall j :: 0 <= j < r ==> xs[j] != x
    ensures r == |xs| <==> x !in xs
  {
    if xs == [] then 0
    else if xs[0] == x then 0
    else 1 + IndexOf(xs[1..], x)
  }

  /** `atomize` on a table of atoms: the new table and the position of `s`
      in it.  The C++ returns that position as an `unsigned int`. */
  function Intern(atoms: seq<Str>, s: Str): (r: (seq<Str>, nat))
    ensures r.1 < |r.0| && r.0[r.1] == s
    ensures forall j :: 0 <= j < r.1 ==> r.0[j] != s
    ensures s in atoms ==> r.0 == atoms
    ensures s !in atoms ==> r.0 == atoms + [s] && r.1 == |atoms|
  {
    var i := IndexOf(atoms, s);
    if i < |atoms| then (atoms, i) else (atoms + [s], |atoms|)
  }

  /** `unatomize`: the atom with id `id`, a range error past the end. */
  function Unatom(atoms: seq<Str>, id: u32): (r: Result<Str>)
    ensures r.Ok? <==> id < |atoms|
    ensures r.Ok? ==> r.value == atoms[id]
    ensures r.Err? ==> r.error == RangeError
  {
    if id >= |atoms| then Err(RangeError) else Ok(atoms[id])
  }

  /** Interning a second time finds the same atom and changes nothing. */
  lemma InternIdempotent(atoms: seq<Str>, s: Str)
    ensures Intern(Intern(atoms, s).0, s) == Intern(atoms, s)
  {
    var (t, i) := Intern(atoms, s);
    assert s in t;
  }

  /** The id `atomize` returns leads back to the string, as long as the
      table has fewer than 2^32 entries so that the id does not wrap. */
  lemma UnatomizeAtomize(atoms: seq<Str>, s: Str)
    requires |atoms| < Mod32 - 1
    ensures Unatom(Intern(atoms, s).0, U32(Intern(atoms, s).1)) == Ok(s)
  {
  }

  // ------------------------------------------------------------ node table

  /** `has_same_ex_as`: both nodes hold an expression, and the same one. */
  predicate SameEx(a: ArchiveNode, b: ArchiveNode): (r: bool)
    ensures r ==> a.cache == b.cache
    ensures a.cache.None? || b.cache.None? ==> !r
  {
    a.cache.Some? && b.cache.Some? && a.cache.value == b.cache.value
  }

  /** The position of the first node that holds the expression of `n`, or
      `|nodes|`. */
  function FirstSame(nodes: seq<ArchiveNode>, n: ArchiveNode): (r: nat)
    ensures r <= |nodes|
    ensures r < |nodes| ==> SameEx(nodes[r], n)
    ensures forall j :: 0 <= j < r ==> !SameEx(nodes[j], n)
  {
    if nodes == [] then 0
    else if SameEx(nodes[0], n) then 0
    else 1 + FirstSame(nodes[1..], n)
  }

  /** `add_node` on a node table: the new table and the id of the node. */
  function AddedNode(nodes: seq<ArchiveNode>, n: ArchiveNode): (r: (seq<ArchiveNode>, nat))
    ensures r.1 < |r.0|
    ensures r.1 < |nodes| ==> r.0 == nodes && SameEx(nodes[r.1], n)
    ensures r.1 == |nodes| ==> r.0 == nodes + [n]
    ensures forall j :: 0 <= j < r.1 && j < |nodes| ==> !SameEx(nodes[j], n)
  {
    var i := FirstSame(nodes, n);
    if i < |nodes| then (nodes, i) else (nodes + [n], |nodes|)
  }

  /** A node that holds an expression is shared: adding it again returns
      the same id and leaves the table as it is. */
  lemma AddNodeShares(nodes: seq<ArchiveNode>, n: ArchiveNode)
    requires n.cache.Some?
    ensures AddedNode(AddedNode(nodes, n).0, n) == AddedNode(nodes, n)
  {
    var (t, i) := AddedNode(nodes, n);
    assert SameEx(t[i], n);
  }

  /** A node without an expression is never shared: it is always appended. */
  lemma AddNodeWithoutExpression(nodes: seq<ArchiveNode>, n: ArchiveNode)
    requires n.cache.None?
    ensures AddedNode(nodes, n) == (nodes + [n], |nodes|)
  {
    assert FirstSame(nodes, n) == |nodes|;
  }

  // ------------------------------------------------------------ property lookups

  /** The value of the `index`-th property of type `t` named `name`. */
  function Nth(props: seq<Property>, t: PropertyType, name: u32, index: nat): (r: Option<u32>)
    ensures r.Some? ==> index < |props|
    decreases |props|
  {
    if props == [] then None
    else if props[0].ptype == t && props[0].name == name then
      if index == 0 then Some(props[0].value) else Nth(props[1..], t, name, index - 1)
    else Nth(props[1..], t, name, index)
  }

  /** A value found belongs to a property of the requested name and type. */
  lemma {:induction false} NthFound(props: seq<Property>, t: PropertyType, name: u32, index: nat)
    ensures Nth(props, t, name, index).Some? ==> Property(name, t, Nth(props, t, name, index).value) in props
    decreases |props|
  {
    if props != [] {
      if props[0].ptype == t && props[0].name == name && index > 0 {
        NthFound(props[1..], t, name, index - 1);
      } else if !(props[0].ptype == t && props[0].name == name) {
        NthFound(props[1..], t, name, index);
      }
    }
  }

  /** One step of the search: the lookup from position `i` on either
      matches the property there or goes on from the next one. */
  lemma NthStep(props: seq<Property>, t: PropertyType, name: u32, k: nat, i: nat)
    requires i < |props|
    ensures Nth(props[i..], t, name, k)
            == if props[i].ptype == t && props[i].name == name then
                 if k == 0 then Some(props[i].value) else Nth(props[i + 1..], t, name, k - 1)
               else Nth(props[i + 1..], t, name, k)
  {
    assert props[i..][1..] == props[i + 1..];
  }

  /** The values of all properties of type `t` named `name`, in order. */
  function Values(props: seq<Property>, t: PropertyType, name: u32): (r: seq<u32>)
    ensures |r| <= |props|
  {
    if props == [] then []
    else if props[0].ptype == t && props[0].name == name then [props[0].value] + Values(props[1..], t, name)
    else Values(props[1..], t, name)
  }

  /** The lookup yields the `index`-th matching value, and nothing when
      fewer than `index + 1` properties match. */
  lemma {:induction false} NthIsValue(props: seq<Property>, t: PropertyType, name: u32, index: nat)
    ensures Nth(props, t, name, index)
            == if index < |Values(props, t, name)| then Some(Values(props, t, name)[index]) else None
    decreases |props|
  {
    if props != [] {
      if props[0].ptype == t && props[0].name == name && index > 0 {
        NthIsValue(props[1..], t, name, index - 1);
      } else if !(props[0].ptype == t && props[0].name == name) {
        NthIsValue(props[1..], t, name, index);
      }
    }
  }

  /** Adding a property makes it findable under its name and type, after
      the ones already there. */
  lemma {:induction false} ValuesAppend(props: seq<Property>, p: Property)
    ensures Values(props + [p], p.ptype, p.name) == Values(props, p.ptype, p.name) + [p.value]
    decreases |props|
  {
    if props == [] {
      assert props + [p] == [p];
    } else {
      assert (props + [p])[1..] == props[1..] + [p];
      ValuesAppend(props[1..], p);
    }
  }

  /** The position in `exprs` of the first root named `name`, or `|exprs|`. */
  function FirstRoot(exprs: seq<ArchivedEx>, name: u32): (r: nat)
    ensures r <= |exprs|
    ensures r < |exprs| ==> exprs[r].name == name
    ensures forall j :: 0 <= j < r ==> exprs[j].name != name
  {
    if exprs == [] then 0
    else if exprs[0].name == name then 0
    else 1 + FirstRoot(exprs[1..], name)
  }

  /** The property name "class", under which a node stores the name of its
      class as a property of type string. */
  const ClassKey: Str := [0x63, 0x6c, 0x61, 0x73, 0x73]

  // ------------------------------------------------------------ unarchiving

  /** The constructor the class registry yields for a node: given the node's
      id and its class name, the expression it builds, or `None` when no
      class of that name is registered. */
  type Builder = (nat, Str) -> Option<ExprRef>

  /** `archive_node::unarchive` on node `id` (reached through `get_node`,
      which checks the id): the result, the new atom table (the key "class"
      is interned) and the new node table (the built expression is cached).
      The builder does not call back into the archive, so no other node and
      no other atom changes here. */
  function Unarchived(atoms: seq<Str>, nodes: seq<ArchiveNode>, id: nat, build: Builder)
    : (r: (Result<ExprRef>, seq<Str>, seq<ArchiveNode>))
    ensures |r.2| == |nodes|
    ensures forall j :: 0 <= j < |nodes| && j != id ==> r.2[j] == nodes[j]
  {
    if id >= |nodes| then (Err(RangeError), atoms, nodes)
    else if nodes[id].cache.Some? then (Ok(nodes[id].cache.value), atoms, nodes)
    else
      var (atoms1, key) := Intern(atoms, ClassKey);
      match Nth(nodes[id].props, PtypeString, U32(key), 0)
      case None => (Err(RuntimeError), atoms1, nodes)
      case Some(v) =>
        if v >= |atoms1| then (Err(RangeError), atoms1, nodes)
        else match build(id, atoms1[v])
          case None => (Err(RuntimeError), atoms1, nodes)
          case Some(e) => (Ok(e), atoms1, nodes[id := ArchiveNode(nodes[id].props, Some(e))])
  }

  /** A node that was unarchived once keeps its expression: unarchiving it
      again gives the same expression and changes nothing. */
  lemma UnarchiveCaches(atoms: seq<Str>, nodes: seq<ArchiveNode>, id: nat, build: Builder)
    requires Unarchived(atoms, nodes, id, build).0.Ok?
    ensures var (r, atoms1, nodes1) := Unarchived(atoms, nodes, id, build);
      id < |nodes1| && nodes1[id].cache == Some(r.value) && nodes1[id].props == nodes[id].props
      && Unarchived(atoms1, nodes1, id, build) == (r, atoms1, nodes1)
  {
  }

  /** Unarchiving never builds a node that already holds an expression, and
      builds one that does not with the registered constructor. */
  lemma UnarchiveBuildsOnce(atoms: seq<Str>, nodes: seq<ArchiveNode>, id: nat, build: Builder)
    requires id < |nodes|
    ensures nodes[id].cache.Some? ==> Unarchived(atoms, nodes, id, build) == (Ok(nodes[id].cache.value), atoms, nodes)
    ensures nodes[id].cache.None? && Unarchived(atoms, nodes, id, build).0.Ok? ==>
      exists c :: build(id, c) == Some(Unarchived(atoms, nodes, id, build).0.value)
  {
    if nodes[id].cache.None? && Unarchived(atoms, nodes, id, build).0.Ok? {
      var (atoms1, key) := Intern(atoms, ClassKey);
      var v := Nth(nodes[id].props, PtypeString, U32(key), 0).value;
      assert build(id, atoms1[v]) == Some(Unarchived(atoms, nodes, id, build).0.value);
    }
  }

  /** `forget` on a node table: every cached expression dropped. */
  function Forgotten(nodes: seq<ArchiveNode>): (r: seq<ArchiveNode>)
    ensures |r| == |nodes|
    ensures forall j :: 0 <= j < |r| ==> r[j].props == nodes[j].props && r[j].cache.None?
  {
    seq(|nodes|, j requires 0 <= j < |nodes| => ArchiveNode(nodes[j].props, None))
  }

  /** After `forget`, unarchiving a node calls its constructor again: the
      result no longer depends on what was cached. */
  lemma ForgetRebuilds(atoms: seq<Str>, nodes: seq<ArchiveNode>, other: seq<ArchiveNode>, id: nat, build: Builder)
    requires |nodes| == |other| && forall j :: 0 <= j < |nodes| ==> nodes[j].props == other[j].props
    ensures Unarchived(atoms, Forgotten(nodes), id, build).0 == Unarchived(atoms, Forgotten(other), id, build).0
  {
    assert Forgotten(nodes) == Forgotten(other);
  }

  // ------------------------------------------------------------ reading into an archive

  /** The nodes `operator>>` leaves in an archive that held `before`:
      `resize` keeps the first nodes, and reading a node only replaces its
      properties, so their cached expressions survive. */
  function ReadNodesAsWritten(before: seq<ArchiveNode>, props: seq<seq<Property>>): (r: seq<ArchiveNode>)
    ensures |r| == |props|
  {
    seq(|props|, i requires 0 <= i < |props| =>
      ArchiveNode(props[i], if i < |before| then before[i].cache else None))
  }

  /** The nodes a read should leave: the properties read, nothing cached. */
  function FreshNodes(props: seq<seq<Property>>): (r: seq<ArchiveNode>)
    ensures |r| == |props|
    ensures forall i :: 0 <= i < |r| ==> r[i].props == props[i] && r[i].cache.None?
  {
    seq(|props|, i requires 0 <= i < |props| => ArchiveNode(props[i], None))
  }

  /** Reading an archive into one that was used before leaves a node with
      the expression of the old archive: node 0 of the stream has no
      properties, yet unarchiving it returns expression 7 and never
      consults the stream. */
  lemma StaleCacheAfterRead(build: Builder)
    ensures var nodes := ReadNodesAsWritten([ArchiveNode([], Some(7))], [[]]);
      nodes[0].cache == Some(7)
      && Unarchived([], nodes, 0, build) == (Ok(7), [], nodes)
      && Unarchived([], FreshNodes([[]]), 0, build).0 == Err(RuntimeError)
  {
    var clean := FreshNodes([[]]);
    assert clean[0] == ArchiveNode([], None);
    assert Nth(clean[0].props, PtypeString, U32(Intern([], ClassKey).1), 0) == None;
  }

  /** With fresh nodes, the archive a stream reads into does not matter,
      and what was written reads back with nothing cached. */
  lemma WriteThenRead(version: u32, current: u32, age: u32,
                      atoms: seq<Str>, exprs: seq<ArchivedEx>, nodes: seq<ArchiveNode>)
    requires age <= current && VersionSupported(version, current, age)
    requires Writable(atoms, exprs, nodes)
    ensures var c := DecodeArchive(EncodeArchive(version, atoms, exprs, nodes), current, age);
      c.Ok? && c.value.atoms == atoms && c.value.exprs == exprs
      && FreshNodes(c.value.nodeProps) == Forgotten(nodes)
  {
    ArchiveRoundTrip(version, current, age, atoms, exprs, nodes);
  }

  // ------------------------------------------------------------ the container

  class Archive {
    var atoms: seq<Str>
    var exprs: seq<ArchivedEx>
    var nodes: seq<ArchiveNode>

    constructor ()
      ensures atoms == [] && exprs == [] && nodes == []
    {
      atoms, exprs, nodes := [], [], [];
    }

    /** `atomize`: the id of `s`, appending it when it is new. */
    method Atomize(s: Str) returns (id: u32)
      modifies this
      ensures atoms == Intern(old(atoms), s).0 && id == U32(Intern(old(atoms), s).1)
      ensures exprs == old(exprs) && nodes == old(nodes)
    {
      var i := 0;
      while i < |atoms|
        invariant i <= |atoms|
        invariant forall j :: 0 <= j < i ==> atoms[j] != s
      {
        if atoms[i] == s {
          assert IndexOf(atoms, s) == i;
          return U32(i);
        }
        i := i + 1;
      }
      atoms := atoms + [s];
      id := U32(i);
    }

    /** `unatomize`. */
    function Unatomize(id: u32): (r: Result<Str>)
      reads this
      ensures r == Unatom(atoms, id)
    {
      if id >= |atoms| then Err(RangeError) else Ok(atoms[id])
    }

    /** `add_node`: the id of the first node holding the expression of `n`,
      or of `n` appended. */
    method AddNode(n: ArchiveNode) returns (id: u32)
      modifies this
      ensures nodes == AddedNode(old(nodes), n).0 && id == U32(AddedNode(old(nodes), n).1)
      ensures atoms == old(atoms) && exprs == old(exprs)
    {
      var i := 0;
      while i < |nodes|
        invariant i <= |nodes|
        invariant forall j :: 0 <= j < i ==> !SameEx(nodes[j], n)
      {
        if nodes[i].cache.Some? && n.cache.Some? && nodes[i].cache.value == n.cache.value {
          assert FirstSame(nodes, n) == i;
          return U32(i);
        }
        i := i + 1;
      }
      nodes := nodes + [n];
      id := U32(i);
    }

    /** `get_node`. */
    function GetNode(id: u32): (r: Result<ArchiveNode>)
      reads this
      ensures r.Ok? <==> id < |nodes|
      ensures r.Ok? ==> r.value == nodes[id]
      ensures r.Err? ==> r.error == RangeError
    {
      if id >= |nodes| then Err(RangeError) else Ok(nodes[id])
    }

    /** `archive_ex`: records `root`, the node built for the expression, and
      names it. */
    method ArchiveEx(root: ArchiveNode, name: Str)
      modifies this
      ensures nodes == AddedNode(old(nodes), root).0
      ensures atoms == Intern(old(atoms), name).0
      ensures exprs == old(exprs) + [ArchivedEx(U32(Intern(old(atoms), name).1), U32(AddedNode(old(nodes), root).1))]
    {
      var id := AddNode(root);
      var atom := Atomize(name);
      exprs := exprs + [ArchivedEx(atom, id)];
    }

    /** `num_expressions`: the number of named roots as an `unsigned int`. */
    function NumExpressions(): (r: u32)
      reads this
      ensures |exprs| < Mod32 ==> r == |exprs|
    {
      U32(|exprs|)
    }

    /** `get_top_node`: the root node of the `index`-th named expression.
      The root id read from a stream is not checked by the C++ code; here
      an id past the node table is a range error. */
    function GetTopNode(index: u32): (r: Result<ArchiveNode>)
      reads this
      ensures r.Ok? <==> index < |exprs| && exprs[index].root < |nodes|
      ensures r.Ok? ==> r.value == nodes[exprs[index].root]
      ensures index >= |exprs| ==> r == Err(RangeError)
    {
      if index >= |exprs| then Err(RangeError)
      else if exprs[index].root >= |nodes| then Err(RangeError)
      else Ok(nodes[exprs[index].root])
    }

    /** The search loop shared by the `find_*` lookups. */
    static method FindNth(props: seq<Property>, t: PropertyType, name: u32, index: nat) returns (r: Option<u32>)
      ensures r == Nth(props, t, name, index)
      ensures r.Some? <==> index < |Values(props, t, name)|
    {
      NthIsValue(props, t, name, index);
      var i, found := 0, 0;
      while i < |props|
        invariant i <= |props| && found <= index
        invariant Nth(props, t, name, index) == Nth(props[i..], t, name, index - found)
      {
        NthStep(props, t, name, index - found, i);
        if props[i].ptype == t && props[i].name == name {
          if found == index {
            return Some(props[i].value);
          }
          found := found + 1;
        }
        i := i + 1;
      }
      assert props[i..] == [];
      return None;
    }

    /** `add_bool`, `add_unsigned`: the name is interned, the property appended. */
    method AddBool(n: ArchiveNode, name: Str, value: bool) returns (n': ArchiveNode)
      modifies this
      ensures atoms == Intern(old(atoms), name).0 && exprs == old(exprs) && nodes == old(nodes)
      ensures n' == ArchiveNode(n.props + [Property(U32(Intern(old(atoms), name).1), PtypeBool, if value then 1 else 0)], n.cache)
    {
      var atom := Atomize(name);
      n' := ArchiveNode(n.props + [Property(atom, PtypeBool, if value then 1 else 0)], n.cache);
    }

    method AddUnsigned(n: ArchiveNode, name: Str, value: u32) returns (n': ArchiveNode)
      modifies this
      ensures atoms == Intern(old(atoms), name).0 && exprs == old(exprs) && nodes == old(nodes)
      ensures n' == ArchiveNode(n.props + [Property(U32(Intern(old(atoms), name).1), PtypeUnsigned, value)], n.cache)
    {
      var atom := Atomize(name);
      n' := ArchiveNode(n.props + [Property(atom, PtypeUnsigned, value)], n.cache);
    }

    /** `add_string`: the name and then the value are interned (the C++
      leaves the order of the two calls unspecified). */
    method AddString(n: ArchiveNode, name: Str, value: Str) returns (n': ArchiveNode)
      modifies this
      ensures var (t1, a1) := Intern(old(atoms), name);
              var (t2, a2) := Intern(t1, value);
              atoms == t2 && n' == ArchiveNode(n.props + [Property(U32(a1), PtypeString, U32(a2))], n.cache)
      ensures exprs == old(exprs) && nodes == old(nodes)
    {
      var nameAtom := Atomize(name);
      var valueAtom := Atomize(value);
      n' := ArchiveNode(n.props + [Property(nameAtom, PtypeString, valueAtom)], n.cache);
    }

    /** `add_ex`: the child node is added first, then the name interned. */
    method AddEx(n: ArchiveNode, name: Str, child: ArchiveNode) returns (n': ArchiveNode)
      modifies this
      ensures nodes == AddedNode(old(nodes), child).0 && atoms == Intern(old(atoms), name).0
      ensures exprs == old(exprs)
      ensures n' == ArchiveNode(n.props + [Property(U32(Intern(old(atoms), name).1), PtypeNode,
                                                   U32(AddedNode(old(nodes), child).1))], n.cache)
    {
      var id := AddNode(child);
      var atom := Atomize(name);
      n' := ArchiveNode(n.props + [Property(atom, PtypeNode, id)], n.cache);
    }

    /** `find_bool`: the first boolean property of that name, if any. */
    method FindBool(n: ArchiveNode, name: Str) returns (r: Option<bool>)
      modifies this
      ensures atoms == Intern(old(atoms), name).0 && exprs == old(exprs) && nodes == old(nodes)
      ensures var v := Nth(n.props, PtypeBool, U32(Intern(old(atoms), name).1), 0);
              r == if v.Some? then Some(v.value != 0) else None
    {
      var atom := Atomize(name);
      var v := FindNth(n.props, PtypeBool, atom, 0);
      r := if v.Some? then Some(v.value != 0) else None;
    }

    /** `find_unsigned`. */
    method FindUnsigned(n: ArchiveNode, name: Str) returns (r: Option<u32>)
      modifies this
      ensures atoms == Intern(old(atoms), name).0 && exprs == old(exprs) && nodes == old(nodes)
      ensures r == Nth(n.props, PtypeUnsigned, U32(Intern(old(atoms), name).1), 0)
    {
      var atom := Atomize(name);
      r := FindNth(n.props, PtypeUnsigned, atom, 0);
    }

    /** `find_string`: the value atom of the first string property of that
      name, turned back into its string. */
    method FindString(n: ArchiveNode, name: Str) returns (r: Result<Option<Str>>)
      modifies this
      ensures atoms == Intern(old(atoms), name).0 && exprs == old(exprs) && nodes == old(nodes)
      ensures var v := Nth(n.props, PtypeString, U32(Intern(old(atoms), name).1), 0);
              r == if v.None? then Ok(None)
                   else match Unatom(atoms, v.value) case Ok(s) => Ok(Some(s)) case Err(e) => Err(e)
    {
      var atom := Atomize(name);
      var v := FindNth(n.props, PtypeString, atom, 0);
      if v.None? {
        return Ok(None);
      }
      var s := Unatomize(v.value);
      r := match s case Ok(s) => Ok(Some(s)) case Err(e) => Err(e);
    }

    /** `archive_node::unarchive` for node `id`, through `get_node`. */
    method UnarchiveNode(id: u32, build: Builder) returns (r: Result<ExprRef>)
      modifies this
      ensures (r, atoms, nodes) == Unarchived(old(atoms), old(nodes), id, build)
      ensures exprs == old(exprs)
    {
      if id >= |nodes| {
        return Err(RangeError);
      }
      if nodes[id].cache.Some? {
        return Ok(nodes[id].cache.value);
      }
      var cls := FindString(nodes[id], ClassKey);
      if cls.Err? {
        return Err(cls.error);
      }
      if cls.value.None? {
        return Err(RuntimeError);
      }
      var e := build(id, cls.value.value);
      if e.None? {
        return Err(RuntimeError);
      }
      nodes := nodes[id := ArchiveNode(nodes[id].props, Some(e.value))];
      r := Ok(e.value);
    }

    /** `find_ex`: the expression of the node the `index`-th node property
      of that name refers to; `None` when there are fewer such properties. */
    method FindEx(n: ArchiveNode, name: Str, index: u32, build: Builder) returns (r: Result<Option<ExprRef>>)
      modifies this
      ensures var (t1, a1) := Intern(old(atoms), name);
        match Nth(n.props, PtypeNode, U32(a1), index)
        case None => r == Ok(None) && atoms == t1 && nodes == old(nodes)
        case Some(id) =>
          var (u, t2, ns) := Unarchived(t1, old(nodes), id, build);
          atoms == t2 && nodes == ns && r == (if u.Ok? then Ok(Some(u.value)) else Err(u.error))
      ensures exprs == old(exprs)
    {
      var atom := Atomize(name);
      var v := FindNth(n.props, PtypeNode, atom, index);
      if v.None? {
        return Ok(None);
      }
      var u := UnarchiveNode(v.value, build);
      r := if u.Ok? then Ok(Some(u.value)) else Err(u.error);
    }

    /** `find_ex_node`: the node itself, and a runtime error when there are
      fewer node properties of that name than `index + 1`. */
    method FindExNode(n: ArchiveNode, name: Str, index: u32) returns (r: Result<ArchiveNode>)
      modifies this
      ensures atoms == Intern(old(atoms), name).0 && exprs == old(exprs) && nodes == old(nodes)
      ensures var v := Nth(n.props, PtypeNode, U32(Intern(old(atoms), name).1), index);
              r == if v.None? then Err(RuntimeError) else GetNode(v.value)
    {
      var atom := Atomize(name);
      var v := FindNth(n.props, PtypeNode, atom, index);
      if v.None? {
        return Err(RuntimeError);
      }
      r := GetNode(v.value);
    }

    /** `unarchive_ex` by name: the name is interned even when no root has
      it, and then the lookup fails with a runtime error. */
    method UnarchiveExByName(name: Str, build: Builder) returns (r: Result<ExprRef>)
      modifies this
      ensures var (t1, a1) := Intern(old(atoms), name);
        var k := FirstRoot(old(exprs), U32(a1));
        if k == |old(exprs)| then r == Err(RuntimeError) && atoms == t1 && nodes == old(nodes)
        else var root := old(exprs)[k].root;
          if root >= |old(nodes)| then r == Err(RangeError) && atoms == t1 && nodes == old(nodes)
          else (r, atoms, nodes) == Unarchived(t1, old(nodes), root, build)
      ensures exprs == old(exprs)
    {
      var atom := Atomize(name);
      var i := 0;
      while i < |exprs|
        invariant i <= |exprs|
        invariant forall j :: 0 <= j < i ==> exprs[j].name != atom
      {
        if exprs[i].name == atom {
          assert FirstRoot(exprs, atom) == i;
          r := UnarchiveNode(exprs[i].root, build);
          return;
        }
        i := i + 1;
      }
      r := Err(RuntimeError);
    }

    /** `unarchive_ex` by position among the named roots. */
    method UnarchiveExByIndex(index: u32, build: Builder) returns (r: Result<ExprRef>)
      modifies this
      ensures index >= |old(exprs)| ==> r == Err(RangeError) && atoms == old(atoms) && nodes == old(nodes)
      ensures index < |old(exprs)| ==> (r, atoms, nodes) == Unarchived(old(atoms), old(nodes), old(exprs)[index].root, build)
      ensures exprs == old(exprs)
    {
      if index >= |exprs| {
        return Err(RangeError);
      }
      r := UnarchiveNode(exprs[index].root, build);
    }

    /** `unarchive_ex` by position, also giving the root's name. */
    method UnarchiveExWithName(index: u32, build: Builder) returns (r: Result<(Str, ExprRef)>)
      modifies this
      ensures index >= |old(exprs)| ==> r == Err(RangeError) && atoms == old(atoms) && nodes == old(nodes)
      ensures index < |old(exprs)| ==>
        match Unatom(old(atoms), old(exprs)[index].name)
        case Err(e) => r == Err(e) && atoms == old(atoms) && nodes == old(nodes)
        case Ok(s) =>
          var (u, t, ns) := Unarchived(old(atoms), old(nodes), old(exprs)[index].root, build);
          atoms == t && nodes == ns && r == (if u.Ok? then Ok((s, u.value)) else Err(u.error))
      ensures exprs == old(exprs)
    {
      if index >= |exprs| {
        return Err(RangeError);
      }
      var name := Unatomize(exprs[index].name);
      if name.Err? {
        return Err(name.error);
      }
      var u := UnarchiveNode(exprs[index].root, build);
      r := if u.Ok? then Ok((name.value, u.value)) else Err(u.error);
    }

    /** `forget`: drops the cached expression of every node. */
    method Forget()
      modifies this
      ensures nodes == Forgotten(old(nodes)) && atoms == old(atoms) && exprs == old(exprs)
    {
      var i := 0;
      while i < |nodes|
        invariant i <= |nodes| == |old(nodes)|
        invariant forall j :: 0 <= j < i ==> nodes[j] == ArchiveNode(old(nodes)[j].props, None)
        invariant forall j :: i <= j < |nodes| ==> nodes[j] == old(nodes)[j]
        invariant atoms == old(atoms) && exprs == old(exprs)
      {
        nodes := nodes[i := ArchiveNode(nodes[i].props, None)];
        i := i + 1;
      }
    }

    /** `clear`. */
    method Clear()
      modifies this
      ensures atoms == [] && exprs == [] && nodes == []
    {
      atoms, exprs, nodes := [], [], [];
    }

    /** `operator<<`: the bytes written for this archive by a library of
      version `version`. */
    function Written(version: u32): (r: seq<byte>)
      reads this
      ensures |r| > 4 && r[..4] == Signature
    {
      EncodeArchive(version, atoms, exprs, nodes)
    }

    /** `operator>>`, reading into this archive.  The nodes read hold no
      expression (see `ReadNodesAsWritten` for the C++ behaviour). */
    method Read(s: seq<byte>, current: u32, age: u32) returns (r: Result<()>)
      requires age <= current
      modifies this
      ensures match DecodeArchive(s, current, age)
        case Ok(c) => r.Ok? && atoms == c.atoms && exprs == c.exprs && nodes == FreshNodes(c.nodeProps)
        case Err(e) => r == Err(e) && atoms == old(atoms) && exprs == old(exprs) && nodes == old(nodes)
    {
      var c := DecodeArchive(s, current, age);
      if c.Err? {
        return Err(c.error);
      }
      atoms, exprs, nodes := c.value.atoms, c.value.exprs, FreshNodes(c.value.nodeProps);
      r := Ok(());
    }
  }
}
