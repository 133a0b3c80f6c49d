/** The values an archive is made of (properties, nodes, named roots) and
    the binary layout `operator<<` writes and `operator>>` reads:

      signature 'GARC', version,
      atom count, atoms (each terminated by a zero byte),
      expression count, (name atom, root node id) per expression,
      node count, per node: property count, (tag-and-name word, value) per property,

    every number in the varint code of module Varint. */
module ArchiveFormat {
  import opened Outcomes
  import opened Varint

  /** A `std::string`: atoms, names and class names are byte strings. */
  type Str = seq<byte>

  /** The 3-bit property tag.  archive.h, which is not part of this model,
      declares PTYPE_BOOL, PTYPE_UNSIGNED, PTYPE_STRING and PTYPE_NODE in
      this order; a tag read from a stream can be any 3-bit value. */
  type PropertyType = x: int | 0 <= x < 8

  const PtypeBool: PropertyType := 0
  const PtypeUnsigned: PropertyType := 1
  const PtypeString: PropertyType := 2
  const PtypeNode: PropertyType := 3

  /** One property of a node: its name atom, its tag and its value (a truth
      value, a number, an atom or a node id, according to the tag). */
  datatype Property = Property(name: u32, ptype: PropertyType, value: u32)

  /** The identity of the expression node an `ex` handle points to (its `bp`). */
  type ExprRef = nat

  /** `archive_node`: its properties and its cached expression; `cache` is
      `Some(e)` exactly when `has_expression` is set. */
  datatype ArchiveNode = ArchiveNode(props: seq<Property>, cache: Option<ExprRef>)

  /** `archive::archived_ex`: a named root of the archive. */
  datatype ArchivedEx = ArchivedEx(name: u32, root: u32)

  /** What `operator>>` reads: the atom table, the named roots and the
      properties of each node. */
  datatype Contents = Contents(atoms: seq<Str>, exprs: seq<ArchivedEx>, nodeProps: seq<seq<Property>>)

  /** A vector size or position stored in a 32-bit `unsigned int`. */
  function U32(n: nat): (r: u32)
    ensures r <= n && (n < Mod32 ==> r == n)
  {
    n % Mod32
  }

  const Signature: seq<byte> := [0x47, 0x41, 0x52, 0x43]  // 'G' 'A' 'R' 'C'

  /** Names below this bound survive the three-bit shift in 32 bits. */
  const NameLimit: int := 0x2000_0000

  /** The word written before a property's value, `type | (name << 3)`.
      The 32-bit shift drops the top three bits of the name, and the tag
      fills the three zero bits below it, so the bitwise or is an addition. */
  function PackWord(p: Property): (r: u32)
    ensures r % 8 == p.ptype
    ensures r / 8 == p.name % NameLimit
  {
    (p.name % NameLimit) * 8 + p.ptype
  }

  /** The reader's `name_type >> 3`. */
  function UnpackName(w: u32): (r: u32)
    ensures r < NameLimit
    ensures r * 8 <= w < r * 8 + 8
  {
    w / 8
  }

  /** The reader's `name_type & 7`. */
  function UnpackType(w: u32): (r: PropertyType)
    ensures UnpackName(w) * 8 + r == w
  {
    w % 8
  }

  /** Reading a packed word gives back the tag, and the name exactly when
      it is below 2^29. */
  lemma PropertyWordRoundTrip(p: Property)
    ensures UnpackType(PackWord(p)) == p.ptype
    ensures UnpackName(PackWord(p)) == p.name % NameLimit
    ensures UnpackName(PackWord(p)) == p.name <==> p.name < NameLimit
  {
  }

  // ---------------------------------------------------------------- writing

  /** Each property as its packed word, then its value. */
  function EncodeProps(ps: seq<Property>): (r: seq<byte>)
    ensures |r| >= 2 * |ps|
  {
    if ps == [] then []
    else Encode(PackWord(ps[0])) + Encode(ps[0].value) + EncodeProps(ps[1..])
  }

  /** `operator<<` for an archive node: the property count, then each
      property's word and value.  The count is the vector size converted to
      `unsigned int`, and only that many properties are written. */
  function EncodeNode(n: ArchiveNode): (r: seq<byte>)
    ensures |r| >= 1 + 2 * U32(|n.props|)
  {
    var k := U32(|n.props|);
    Encode(k) + EncodeProps(n.props[..k])
  }

  function EncodeNodes(ns: seq<ArchiveNode>): seq<byte>
  {
    if ns == [] then [] else EncodeNode(ns[0]) + EncodeNodes(ns[1..])
  }

  /** Each atom followed by the terminating zero byte (`std::ends`). */
  function EncodeAtoms(atoms: seq<Str>): seq<byte>
  {
    if atoms == [] then [] else atoms[0] + [0] + EncodeAtoms(atoms[1..])
  }

  function EncodeExprs(es: seq<ArchivedEx>): seq<byte>
  {
    if es == [] then [] else Encode(es[0].name) + Encode(es[0].root) + EncodeExprs(es[1..])
  }

  /** The table sections of an archive: each a count, then the entries. */
  function EncodeBody(atoms: seq<Str>, exprs: seq<ArchivedEx>, nodes: seq<ArchiveNode>): (r: seq<byte>)
    ensures |r| >= 3
  {
    Encode(U32(|atoms|)) + EncodeAtoms(atoms[..U32(|atoms|)])
    + Encode(U32(|exprs|)) + EncodeExprs(exprs[..U32(|exprs|)])
    + Encode(U32(|nodes|)) + EncodeNodes(nodes[..U32(|nodes|)])
  }

  /** `operator<<` for an archive, stamped with the library's version. */
  function EncodeArchive(version: u32, atoms: seq<Str>, exprs: seq<ArchivedEx>, nodes: seq<ArchiveNode>): (r: seq<byte>)
    ensures |r| >= 8 && r[..4] == Signature
  {
    Signature + Encode(version) + EncodeBody(atoms, exprs, nodes)
  }

  // ---------------------------------------------------------------- reading

  function DecodeProps(s: seq<byte>, pos: nat, count: nat): (r: Result<(seq<Property>, nat)>)
    requires pos <= |s|
    ensures r.Ok? ==> pos <= r.value.1 <= |s| && |r.value.0| == count
    decreases count
  {
    if count == 0 then Ok(([], pos))
    else match Decode(s, pos)
      case Err(e) => Err(e)
      case Ok((w, p1)) => match Decode(s, p1)
        case Err(e) => Err(e)
        case Ok((v, p2)) => match DecodeProps(s, p2, count - 1)
          case Err(e) => Err(e)
          case Ok((rest, p3)) => Ok(([Property(UnpackName(w), UnpackType(w), v)] + rest, p3))
  }

  /** `operator>>` for an archive node: the properties it reads. */
  function DecodeNode(s: seq<byte>, pos: nat): (r: Result<(seq<Property>, nat)>)
    ensures r.Ok? ==> pos < r.value.1 <= |s|
  {
    match Decode(s, pos)
    case Err(e) => Err(e)
    case Ok((count, p)) => DecodeProps(s, p, count)
  }

  function DecodeNodes(s: seq<byte>, pos: nat, count: nat): (r: Result<(seq<seq<Property>>, nat)>)
    requires pos <= |s|
    ensures r.Ok? ==> pos <= r.value.1 <= |s| && |r.value.0| == count
    decreases count
  {
    if count == 0 then Ok(([], pos))
    else match DecodeNode(s, pos)
      case Err(e) => Err(e)
      case Ok((ps, p1)) => match DecodeNodes(s, p1, count - 1)
        case Err(e) => Err(e)
        case Ok((rest, p2)) => Ok(([ps] + rest, p2))
  }

  /** `getline(is, atom, '\0')`: the bytes up to the next zero byte, which
      is consumed.  Input that ends first is an error here. */
  function DecodeString(s: seq<byte>, pos: nat): (r: Result<(Str, nat)>)
    ensures r.Ok? ==> pos < r.value.1 <= |s| && 0 !in r.value.0
    decreases |s| - pos
  {
    if pos >= |s| then Err(EndOfStream)
    else if s[pos] == 0 then Ok(([], pos + 1))
    else match DecodeString(s, pos + 1)
      case Err(e) => Err(e)
      case Ok((t, p)) => Ok(([s[pos]] + t, p))
  }

  function DecodeAtoms(s: seq<byte>, pos: nat, count: nat): (r: Result<(seq<Str>, nat)>)
    requires pos <= |s|
    ensures r.Ok? ==> pos <= r.value.1 <= |s| && |r.value.0| == count
    decreases count
  {
    if count == 0 then Ok(([], pos))
    else match DecodeString(s, pos)
      case Err(e) => Err(e)
      case Ok((a, p1)) => match DecodeAtoms(s, p1, count - 1)
        case Err(e) => Err(e)
        case Ok((rest, p2)) => Ok(([a] + rest, p2))
  }

  function DecodeExprs(s: seq<byte>, pos: nat, count: nat): (r: Result<(seq<ArchivedEx>, nat)>)
    requires pos <= |s|
    ensures r.Ok? ==> pos <= r.value.1 <= |s| && |r.value.0| == count
    decreases count
  {
    if count == 0 then Ok(([], pos))
    else match Decode(s, pos)
      case Err(e) => Err(e)
      case Ok((name, p1)) => match Decode(s, p1)
        case Err(e) => Err(e)
        case Ok((root, p2)) => match DecodeExprs(s, p2, count - 1)
          case Err(e) => Err(e)
          case Ok((rest, p3)) => Ok(([ArchivedEx(name, root)] + rest, p3))
  }

  /** The table sections, read from `pos` on. */
  function DecodeBody(s: seq<byte>, pos: nat): (r: Result<Contents>)
    ensures pos + 3 > |s| ==> r.Err?
  {
    match Decode(s, pos)
    case Err(e) => Err(e)
    case Ok((na, p1)) => match DecodeAtoms(s, p1, na)
      case Err(e) => Err(e)
      case Ok((atoms, p2)) => match Decode(s, p2)
        case Err(e) => Err(e)
        case Ok((ne, p3)) => match DecodeExprs(s, p3, ne)
          case Err(e) => Err(e)
          case Ok((exprs, p4)) => match Decode(s, p4)
            case Err(e) => Err(e)
            case Ok((nn, p5)) => match DecodeNodes(s, p5, nn)
              case Err(e) => Err(e)
              case Ok((props, _)) => Ok(Contents(atoms, exprs, props))
  }

  /** The versions a library of version `current` that is `age` versions
      backward compatible reads. */
  predicate VersionSupported(version: u32, current: u32, age: u32): (r: bool)
    requires age <= current
    ensures version == current ==> r
    ensures version > current ==> !r
    ensures age == 0 ==> (r <==> version == current)
  {
    current - age <= version <= current
  }

  /** The header check of `operator>>`: the signature, then the version. */
  function DecodeHeader(s: seq<byte>, current: u32, age: u32): (r: Result<nat>)
    requires age <= current
    ensures (|s| < 4 || s[..4] != Signature) ==> r == Err(RuntimeError)
    ensures r.Ok? ==> 4 < r.value <= |s| && s[..4] == Signature
  {
    if |s| < 4 || s[..4] != Signature then Err(RuntimeError)
    else match Decode(s, 4)
      case Err(e) => Err(e)
      case Ok((version, p)) =>
        if !VersionSupported(version, current, age) then Err(RuntimeError) else Ok(p)
  }

  /** `operator>>` for an archive, in a library of version `current` that
      reads versions back to `current - age`. */
  function DecodeArchive(s: seq<byte>, current: u32, age: u32): (r: Result<Contents>)
    requires age <= current
    ensures (|s| < 4 || s[..4] != Signature) ==> r == Err(RuntimeError)
    ensures r.Ok? ==> |s| >= 8 && s[..4] == Signature
  {
    match DecodeHeader(s, current, age)
    case Err(e) => Err(e)
    case Ok(p) => DecodeBody(s, p)
  }

  // ---------------------------------------------------------------- round trip

  predicate NamesFit(ps: seq<Property>)
  {
    forall i :: 0 <= i < |ps| ==> ps[i].name < NameLimit
  }

  function PropsOf(ns: seq<ArchiveNode>): (r: seq<seq<Property>>)
    ensures |r| == |ns| && forall i :: 0 <= i < |ns| ==> r[i] == ns[i].props
  {
    if ns == [] then [] else [ns[0].props] + PropsOf(ns[1..])
  }

  /** What the writer can write and the reader give back: tables shorter
      than 2^32 entries, atoms without zero bytes, names below 2^29. */
  predicate Writable(atoms: seq<Str>, exprs: seq<ArchivedEx>, nodes: seq<ArchiveNode>)
  {
    && |atoms| < Mod32 && |exprs| < Mod32 && |nodes| < Mod32
    && (forall i :: 0 <= i < |atoms| ==> 0 !in atoms[i])
    && (forall i :: 0 <= i < |nodes| ==> |nodes[i].props| < Mod32 && NamesFit(nodes[i].props))
  }

  lemma {:induction false} DecodeStringRoundTrip(s: seq<byte>, pos: nat, a: Str)
    requires 0 !in a && At(s, pos, a + [0])
    ensures DecodeString(s, pos) == Ok((a, pos + |a| + 1))
    decreases |a|
  {
    assert s[pos] == (a + [0])[0];
    if a != [] {
      assert a + [0] == [a[0]] + (a[1..] + [0]);
      AtSplit(s, pos, [a[0]], a[1..] + [0]);
      DecodeStringRoundTrip(s, pos + 1, a[1..]);
      assert [a[0]] + a[1..] == a;
    }
  }

  /** `At` for two pieces, naming the position between them. */
  lemma Cut(s: seq<byte>, pos: nat, a: seq<byte>, b: seq<byte>) returns (p: nat)
    requires At(s, pos, a + b)
    ensures At(s, pos, a) && p == pos + |a| && At(s, p, b)
  {
    AtSplit(s, pos, a, b);
    p := pos + |a|;
  }

  /** A number written at `pos` reads back, ending at `next`. */
  lemma ReadOne(s: seq<byte>, pos: nat, x: u32, next: nat)
    requires At(s, pos, Encode(x)) && next == pos + |Encode(x)|
    ensures Decode(s, pos) == Ok((x, next))
  {
    RoundTrip(s, pos, x);
  }

  /** Two numbers written one after the other read back in turn. */
  lemma ReadTwo(s: seq<byte>, pos: nat, x: u32, p1: nat, y: u32, p2: nat)
    requires At(s, pos, Encode(x)) && p1 == pos + |Encode(x)|
    requires At(s, p1, Encode(y)) && p2 == p1 + |Encode(y)|
    ensures Decode(s, pos) == Ok((x, p1)) && Decode(s, p1) == Ok((y, p2))
  {
    RoundTrip(s, pos, x);
    RoundTrip(s, p1, y);
  }

  lemma {:induction false} DecodeAtomsRoundTrip(s: seq<byte>, pos: nat, atoms: seq<Str>, end: nat)
    requires forall i :: 0 <= i < |atoms| ==> 0 !in atoms[i]
    requires At(s, pos, EncodeAtoms(atoms)) && end == pos + |EncodeAtoms(atoms)|
    ensures DecodeAtoms(s, pos, |atoms|) == Ok((atoms, end))
    decreases |atoms|
  {
    if atoms != [] {
      var p1 := AtomsHead(s, pos, atoms, end);
      DecodeAtomsRoundTrip(s, p1, atoms[1..], end);
      DecodeAtomsStep(s, pos, atoms[0], p1, atoms[1..], end);
      assert [atoms[0]] + atoms[1..] == atoms;
    }
  }

  /** The first string of a nonempty atom list reads back, and the rest of
      the list is written right after it. */
  lemma AtomsHead(s: seq<byte>, pos: nat, atoms: seq<Str>, end: nat) returns (p1: nat)
    requires atoms != [] && forall i :: 0 <= i < |atoms| ==> 0 !in atoms[i]
    requires At(s, pos, EncodeAtoms(atoms)) && end == pos + |EncodeAtoms(atoms)|
    ensures pos <= |s| && p1 <= |s| && DecodeString(s, pos) == Ok((atoms[0], p1))
    ensures (forall i :: 0 <= i < |atoms[1..]| ==> 0 !in atoms[1..][i])
    ensures At(s, p1, EncodeAtoms(atoms[1..])) && end == p1 + |EncodeAtoms(atoms[1..])|
  {
    assert EncodeAtoms(atoms) == (atoms[0] + [0]) + EncodeAtoms(atoms[1..]);
    p1 := Cut(s, pos, atoms[0] + [0], EncodeAtoms(atoms[1..]));
    assert 0 !in atoms[0];
    DecodeStringRoundTrip(s, pos, atoms[0]);
  }

  /** One step of `DecodeAtoms`: one string, then the rest. */
  lemma DecodeAtomsStep(s: seq<byte>, pos: nat, a: Str, p1: nat, tail: seq<Str>, q: nat)
    requires pos <= |s| && p1 <= |s|
    requires DecodeString(s, pos) == Ok((a, p1))
    requires DecodeAtoms(s, p1, |tail|) == Ok((tail, q))
    ensures DecodeAtoms(s, pos, |tail| + 1) == Ok(([a] + tail, q))
  {
  }

  /** One step of `DecodeExprs`: a root's name and node id, then the rest. */
  lemma DecodeExprsStep(s: seq<byte>, pos: nat, e: ArchivedEx, p1: nat, p2: nat, tail: seq<ArchivedEx>, q: nat)
    requires pos <= |s| && p2 <= |s|
    requires Decode(s, pos) == Ok((e.name, p1)) && Decode(s, p1) == Ok((e.root, p2))
    requires DecodeExprs(s, p2, |tail|) == Ok((tail, q))
    ensures DecodeExprs(s, pos, |tail| + 1) == Ok(([e] + tail, q))
  {
  }

  lemma {:induction false} DecodeExprsRoundTrip(s: seq<byte>, pos: nat, es: seq<ArchivedEx>, end: nat)
    requires At(s, pos, EncodeExprs(es)) && end == pos + |EncodeExprs(es)|
    ensures DecodeExprs(s, pos, |es|) == Ok((es, end))
    decreases |es|
  {
    if es != [] {
      var p1, p2 := ExprsHead(s, pos, es, end);
      DecodeExprsRoundTrip(s, p2, es[1..], end);
      DecodeExprsStep(s, pos, es[0], p1, p2, es[1..], end);
      assert [es[0]] + es[1..] == es;
    }
  }

  /** The first root of a nonempty list reads back, and the rest of the list
      is written right after it. */
  lemma ExprsHead(s: seq<byte>, pos: nat, es: seq<ArchivedEx>, end: nat) returns (p1: nat, p2: nat)
    requires es != [] && At(s, pos, EncodeExprs(es)) && end == pos + |EncodeExprs(es)|
    ensures pos <= |s| && p2 <= |s|
    ensures Decode(s, pos) == Ok((es[0].name, p1)) && Decode(s, p1) == Ok((es[0].root, p2))
    ensures At(s, p2, EncodeExprs(es[1..])) && end == p2 + |EncodeExprs(es[1..])|
  {
    var e := es[0];
    assert EncodeExprs(es) == Encode(e.name) + (Encode(e.root) + EncodeExprs(es[1..]));
    p1 := Cut(s, pos, Encode(e.name), Encode(e.root) + EncodeExprs(es[1..]));
    p2 := Cut(s, p1, Encode(e.root), EncodeExprs(es[1..]));
    ReadTwo(s, pos, e.name, p1, e.root, p2);
  }

  /** One step of `DecodeProps`: a property's word and value, then the rest. */
  lemma DecodePropsStep(s: seq<byte>, pos: nat, pr: Property, p1: nat, p2: nat, tail: seq<Property>, q: nat)
    requires pos <= |s| && p2 <= |s| && pr.name < NameLimit
    requires Decode(s, pos) == Ok((PackWord(pr), p1)) && Decode(s, p1) == Ok((pr.value, p2))
    requires DecodeProps(s, p2, |tail|) == Ok((tail, q))
    ensures DecodeProps(s, pos, |tail| + 1) == Ok(([pr] + tail, q))
  {
    PropertyWordRoundTrip(pr);
  }

  lemma {:induction false} DecodePropsRoundTrip(s: seq<byte>, pos: nat, ps: seq<Property>, end: nat)
    requires NamesFit(ps)
    requires At(s, pos, EncodeProps(ps)) && end == pos + |EncodeProps(ps)|
    ensures DecodeProps(s, pos, |ps|) == Ok((ps, end))
    decreases |ps|
  {
    if ps != [] {
      var p1, p2 := PropsHead(s, pos, ps, end);
      DecodePropsRoundTrip(s, p2, ps[1..], end);
      DecodePropsStep(s, pos, ps[0], p1, p2, ps[1..], end);
      assert [ps[0]] + ps[1..] == ps;
    }
  }

  /** The first property of a nonempty list reads back, and the rest of the
      list is written right after it. */
  lemma PropsHead(s: seq<byte>, pos: nat, ps: seq<Property>, end: nat) returns (p1: nat, p2: nat)
    requires ps != [] && NamesFit(ps)
    requires At(s, pos, EncodeProps(ps)) && end == pos + |EncodeProps(ps)|
    ensures pos <= |s| && p2 <= |s| && ps[0].name < NameLimit && NamesFit(ps[1..])
    ensures Decode(s, pos) == Ok((PackWord(ps[0]), p1)) && Decode(s, p1) == Ok((ps[0].value, p2))
    ensures At(s, p2, EncodeProps(ps[1..])) && end == p2 + |EncodeProps(ps[1..])|
  {
    var pr := ps[0];
    assert EncodeProps(ps) == Encode(PackWord(pr)) + (Encode(pr.value) + EncodeProps(ps[1..]));
    p1 := Cut(s, pos, Encode(PackWord(pr)), Encode(pr.value) + EncodeProps(ps[1..]));
    p2 := Cut(s, p1, Encode(pr.value), EncodeProps(ps[1..]));
    ReadTwo(s, pos, PackWord(pr), p1, pr.value, p2);
  }

  lemma DecodeNodeRoundTrip(s: seq<byte>, pos: nat, n: ArchiveNode, end: nat)
    requires |n.props| < Mod32 && NamesFit(n.props)
    requires At(s, pos, EncodeNode(n)) && end == pos + |EncodeNode(n)|
    ensures DecodeNode(s, pos) == Ok((n.props, end))
  {
    var k: u32 := |n.props|;
    assert n.props[..k] == n.props;
    var p1 := Cut(s, pos, Encode(k), EncodeProps(n.props));
    ReadOne(s, pos, k, p1);
    DecodePropsRoundTrip(s, p1, n.props, end);
  }

  lemma {:induction false} DecodeNodesRoundTrip(s: seq<byte>, pos: nat, ns: seq<ArchiveNode>, end: nat)
    requires forall i :: 0 <= i < |ns| ==> |ns[i].props| < Mod32 && NamesFit(ns[i].props)
    requires At(s, pos, EncodeNodes(ns)) && end == pos + |EncodeNodes(ns)|
    ensures DecodeNodes(s, pos, |ns|) == Ok((PropsOf(ns), end))
    decreases |ns|
  {
    if ns != [] {
      assert EncodeNodes(ns) == EncodeNode(ns[0]) + EncodeNodes(ns[1..]);
      var p1 := Cut(s, pos, EncodeNode(ns[0]), EncodeNodes(ns[1..]));
      DecodeNodeRoundTrip(s, pos, ns[0], p1);
      DecodeNodesRoundTrip(s, p1, ns[1..], end);
      assert PropsOf(ns) == [ns[0].props] + PropsOf(ns[1..]);
    }
  }

  /** Where the counts and tables of an encoded body lie. */
  lemma BodyLayout(s: seq<byte>, pos: nat, atoms: seq<Str>, exprs: seq<ArchivedEx>, nodes: seq<ArchiveNode>)
    returns (p1: nat, p2: nat, p3: nat, p4: nat, p5: nat, end: nat)
    requires Writable(atoms, exprs, nodes)
    requires At(s, pos, EncodeBody(atoms, exprs, nodes))
    ensures At(s, pos, Encode(|atoms|)) && p1 == pos + |Encode(|atoms|)|
    ensures At(s, p1, EncodeAtoms(atoms)) && p2 == p1 + |EncodeAtoms(atoms)|
    ensures At(s, p2, Encode(|exprs|)) && p3 == p2 + |Encode(|exprs|)|
    ensures At(s, p3, EncodeExprs(exprs)) && p4 == p3 + |EncodeExprs(exprs)|
    ensures At(s, p4, Encode(|nodes|)) && p5 == p4 + |Encode(|nodes|)|
    ensures At(s, p5, EncodeNodes(nodes)) && end == p5 + |EncodeNodes(nodes)|
  {
    assert atoms[..|atoms|] == atoms && exprs[..|exprs|] == exprs && nodes[..|nodes|] == nodes;
    p1, p2, p3, p4, p5, end := CutSix(s, pos, Encode(|atoms|), EncodeAtoms(atoms), Encode(|exprs|),
                                      EncodeExprs(exprs), Encode(|nodes|), EncodeNodes(nodes));
  }

  /** `At` for six consecutive pieces. */
  lemma CutSix(s: seq<byte>, pos: nat, c1: seq<byte>, t1: seq<byte>, c2: seq<byte>, t2: seq<byte>, c3: seq<byte>, t3: seq<byte>)
    returns (p1: nat, p2: nat, p3: nat, p4: nat, p5: nat, end: nat)
    requires At(s, pos, c1 + t1 + c2 + t2 + c3 + t3)
    ensures At(s, pos, c1) && p1 == pos + |c1| && At(s, p1, t1) && p2 == p1 + |t1|
    ensures At(s, p2, c2) && p3 == p2 + |c2| && At(s, p3, t2) && p4 == p3 + |t2|
    ensures At(s, p4, c3) && p5 == p4 + |c3| && At(s, p5, t3) && end == p5 + |t3|
  {
    assert c1 + t1 + c2 + t2 + c3 + t3 == c1 + (t1 + (c2 + (t2 + (c3 + t3))));
    p1 := Cut(s, pos, c1, t1 + (c2 + (t2 + (c3 + t3))));
    p2 := Cut(s, p1, t1, c2 + (t2 + (c3 + t3)));
    p3 := Cut(s, p2, c2, t2 + (c3 + t3));
    p4 := Cut(s, p3, t2, c3 + t3);
    p5 := Cut(s, p4, c3, t3);
    end := p5 + |t3|;
  }

  lemma DecodeBodyRoundTrip(s: seq<byte>, pos: nat, atoms: seq<Str>, exprs: seq<ArchivedEx>, nodes: seq<ArchiveNode>)
    requires Writable(atoms, exprs, nodes)
    requires At(s, pos, EncodeBody(atoms, exprs, nodes))
    ensures DecodeBody(s, pos) == Ok(Contents(atoms, exprs, PropsOf(nodes)))
  {
    var p1, p2, p3, p4, p5, end := BodyLayout(s, pos, atoms, exprs, nodes);
    ReadOne(s, pos, |atoms|, p1);
    DecodeAtomsRoundTrip(s, p1, atoms, p2);
    ReadOne(s, p2, |exprs|, p3);
    DecodeExprsRoundTrip(s, p3, exprs, p4);
    ReadOne(s, p4, |nodes|, p5);
    DecodeNodesRoundTrip(s, p5, nodes, end);
  }

  /** The signature and version at the start of an archive, and where the
      rest begins. */
  lemma HeaderLayout(version: u32, rest: seq<byte>) returns (p: nat)
    ensures var s := Signature + Encode(version) + rest;
      s[..4] == Signature && At(s, 4, Encode(version)) && p == 4 + |Encode(version)| && At(s, p, rest)
  {
    var s := Signature + Encode(version) + rest;
    assert s == Signature + (Encode(version) + rest);
    var p0 := Cut(s, 0, Signature, Encode(version) + rest);
    p := Cut(s, 4, Encode(version), rest);
  }

  /** Reading what the writer wrote gives back the atom table, the named
      roots and every node's properties, whenever the version stamped is
      one the reader supports. */
  lemma ArchiveRoundTrip(version: u32, current: u32, age: u32,
                         atoms: seq<Str>, exprs: seq<ArchivedEx>, nodes: seq<ArchiveNode>)
    requires age <= current && VersionSupported(version, current, age)
    requires Writable(atoms, exprs, nodes)
    ensures DecodeArchive(EncodeArchive(version, atoms, exprs, nodes), current, age)
            == Ok(Contents(atoms, exprs, PropsOf(nodes)))
  {
    var body := EncodeBody(atoms, exprs, nodes);
    var s := Signature + Encode(version) + body;
    assert s == EncodeArchive(version, atoms, exprs, nodes);
    var p := HeaderLayout(version, body);
    ReadOne(s, 4, version, p);
    assert DecodeHeader(s, current, age) == Ok(p);
    DecodeBodyRoundTrip(s, p, atoms, exprs, nodes);
  }

  /** The reader refuses input whose version it does not support, whatever
      follows the version: it fails before reading any atom. */
  lemma HeaderRejects(version: u32, rest: seq<byte>, current: u32, age: u32)
    requires age <= current && !VersionSupported(version, current, age)
    ensures DecodeArchive(Signature + Encode(version) + rest, current, age) == Err(RuntimeError)
  {
    var s := Signature + Encode(version) + rest;
    var p := HeaderLayout(version, rest);
    ReadOne(s, 4, version, p);
  }

  /** The reader refuses input that does not start with the signature. */
  lemma SignatureRequired(s: seq<byte>, current: u32, age: u32)
    requires age <= current
    requires |s| < 4 || s[..4] != Signature
    ensures DecodeArchive(s, current, age) == Err(RuntimeError)
  {
  }
}
