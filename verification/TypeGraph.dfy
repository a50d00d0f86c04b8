/** The type graph that a scan walks: the tables and thunks of a file system on one disk, the
    ancestor check, and the deep scan as a simple recursion. */
module TypeGraph {
  import opened Arith
  import opened Arrays
  import opened Virt

  type Num = x: nat | x < U32

  /** A materialized type: physical offset, type number, and the closure its thunks read. */
  datatype Ti = Ti(poff: Word, typ: Num, offset: nat, params: seq<nat>, xlate: nat)

  /** A field of a type: one of its strong fields, or one of its typed fields with a condition. */
  datatype Fld = Strong(k: nat) | Cond(k: nat)

  /** Following a field element or a pointer: nothing there, out of range or failed
      assertions, or an instance. */
  datatype Found = Nothing | Found(ti: Ti)

  /** Following element i of a virtual type: no such element, an element at a bad physical
      offset or with failed assertions, or an instance. */
  datatype VFound = Stop | Bad | VFound(ti: Ti)

  /** The tables and thunks of a file system on one disk. */
  datatype Graph = Graph(
    met: Ti -> bool,                     // the instances that a scan may meet; see ValidGraph
    strongs: Ti -> nat,
    typed: Ti -> nat,
    hasCond: (Ti, nat) -> bool,
    present: (Ti, nat) -> bool,
    elems: (Ti, Fld) -> Num,
    offset: (Ti, Fld) -> Word,
    typeSize: (Ti, Fld) -> Word,
    uniform: (Ti, Fld) -> bool,
    element: (Ti, Fld, nat, nat) -> Ti,  // what an element would be, at an offset, with an index
    passes: Ti -> bool,                  // it is in range and its assertions hold
    size: Ti -> Word,
    points: Ti -> nat,
    first: (Ti, nat) -> nat,
    last: (Ti, nat) -> nat,
    pointee: (Ti, nat, nat) -> Found,
    virts: Ti -> nat,
    mapped: (Ti, nat) -> bool,           // the mapping of a virtual type can be made
    sizes: (Ti, nat) -> Sizes,           // of the elements in the mapping
    bits: (Ti, nat) -> nat,              // of the mapping
    inside: (Ti, nat, nat) -> VFound)    // what is at a virtual offset

  /** The first and the last index of a points-to range that is not empty. */
  predicate HasRange(g: Graph, ti: Ti, k: nat) {
    g.first(ti, k) != U64 - 1 && g.first(ti, k) <= g.last(ti, k)
  }

  /** Every instance that is met leads to instances that are met, its lists of virtual elements
      end, and its pointer indices fit the 32-bit counter, which would start over. */
  ghost predicate ValidGraph(g: Graph) {
    forall ti: Ti :: g.met(ti) ==> ValidAt(g, ti)
  }

  ghost predicate ValidAt(g: Graph, ti: Ti) {
    && (forall k: nat :: g.mapped(ti, k) ==> VirtEnds(g, ti, k))
    && (forall k: nat :: HasRange(g, ti, k) ==> g.last(ti, k) < U32 - 1)
    && (forall f: Fld, off: nat, i: nat :: Leads(g, Candidate(g, ti, f, off, i)))
    && (forall k: nat, i: nat :: Leads(g, g.pointee(ti, k, i)))
    && (forall k: nat, off: nat :: g.inside(ti, k, off).VFound? ==> g.met(g.inside(ti, k, off).ti))
  }

  predicate Leads(g: Graph, x: Found) { x.Found? ==> g.met(x.ti) }

  ghost predicate VirtEnds(g: Graph, ti: Ti, k: nat) {
    g.bits(ti, k) < OFFSET_EOF && Bounded(g.sizes(ti, k), g.bits(ti, k))
  }

  /** Element i of a virtual type: fsl_virt_get_nth gives its offset. */
  function VirtAt(g: Graph, ti: Ti, k: nat, i: nat): VFound {
    if !g.mapped(ti, k) || !Accepted(g.sizes(ti, k), g.bits(ti, k), i) then Stop
    else g.inside(ti, k, Start(g.sizes(ti, k), i))
  }

  /** The elements before index i exist. */
  ghost predicate VirtReached(g: Graph, ti: Ti, k: nat, i: nat) {
    i > 0 ==> g.mapped(ti, k) && Reached(g.sizes(ti, k), g.bits(ti, k), i)
  }

  datatype Event =
    | SeeType(ti: Ti)
    | SeeStrong(ti: Ti, k: nat)
    | SeeCond(ti: Ti, k: nat)
    | SeePoint(ti: Ti, k: nat, i: nat)
    | SeeVirt(ti: Ti, k: nat, i: nat)

  // ----- the ancestor check -----

  /** An instance and its ancestors, the instance last. */
  type Chain = c: seq<Ti> | |c| > 0 witness [Ti(0, 0, 0, [], 0)]

  function Top(c: Chain): Ti { c[|c| - 1] }

  predicate HasLoop(c: Chain, ti: Ti) {
    exists j :: 0 <= j < |c| && c[j].poff == ti.poff && c[j].typ == ti.typ
  }

  /** ti_has_loop walks up the ancestors. */
  method CheckLoop(c: Chain, ti: Ti) returns (loop: bool)
    ensures loop <==> exists j :: 0 <= j < |c| && c[j].poff == ti.poff && c[j].typ == ti.typ
    ensures loop == HasLoop(c, ti)
  {
    var j := |c|;
    while j > 0
      invariant 0 <= j <= |c|
      invariant forall m :: j <= m < |c| ==> c[m].poff != ti.poff || c[m].typ != ti.typ
    {
      j := j - 1;
      if c[j].poff == ti.poff && c[j].typ == ti.typ {
        return true;
      }
    }
    loop := false;
  }

  ghost function Places(): set<(nat, nat)> {
    set p: nat, t: nat | p < U64 && t < U32 :: (p, t)
  }

  /** The places that are not on the chain. */
  ghost function Room(c: Chain): set<(nat, nat)> {
    Places() - (set j: nat | j < |c| :: (c[j].poff as nat, c[j].typ as nat))
  }

  /** A longer chain without a loop leaves less room: the depth of a scan is bounded. */
  lemma Deeper(c: Chain, ti: Ti)
    requires !HasLoop(c, ti)
    ensures |Room(c + [ti])| < |Room(c)|
  {
    var p := (ti.poff as nat, ti.typ as nat);
    var c' := c + [ti];
    assert p in Room(c);
    assert c'[|c|] == ti;
    forall q | q in Room(c') ensures q in Room(c) - {p} {
      forall j: nat | j < |c| ensures q != (c[j].poff as nat, c[j].typ as nat) { assert c'[j] == c[j]; }
    }
    Smaller(Room(c'), Room(c) - {p});
  }

  lemma {:induction false} Smaller(a: set<(nat, nat)>, b: set<(nat, nat)>)
    requires a <= b
    ensures |a| <= |b|
  {
    if x :| x in a { Smaller(a - {x}, b - {x}); }
  }

  function Follow(c: Chain, f: Found): Found { if f.Found? && !HasLoop(c, f.ti) then f else Nothing }

  /** An array field of an instance. */
  function ArrayField(g: Graph, ti: Ti, f: Fld): Field {
    Field(g.offset(ti, f), g.typeSize(ti, f), g.uniform(ti, f), (i: nat, off: nat) => g.size(g.element(ti, f, off, i)))
  }

  function Candidate(g: Graph, ti: Ti, f: Fld, off: nat, i: nat): Found {
    if g.passes(g.element(ti, f, off, i)) then Found(g.element(ti, f, off, i)) else Nothing
  }

  /** Whether element i can be followed when it is tried at an offset. */
  function CanFollow(g: Graph, c: Chain, f: Fld): (nat, nat) -> bool {
    (i: nat, off: nat) => Follow(c, Candidate(g, Top(c), f, off, i)).Found?
  }

  /** The offset at which the scanner tries element i. */
  function Cursor(g: Graph, c: Chain, f: Fld, i: nat): Word {
    ScanOff(ArrayField(g, Top(c), f), CanFollow(g, c, f), i)
  }

  function FollowVirt(c: Chain, f: VFound): VFound { if f.VFound? && HasLoop(c, f.ti) then Bad else f }

  // ----- the recursion -----

  /** The events of a walk, and how many steps the driver takes for it. */
  datatype Walk = Walk(events: seq<Event>, steps: nat)

  function Then(a: Walk, b: Walk): Walk { Walk(a.events + b.events, a.steps + b.steps) }
  function Step(es: seq<Event>): Walk { Walk(es, 1) }
  function Only(es: seq<Event>): Walk { Walk(es, 0) }

  /** An instance: its four sections. */
  ghost function Visit(g: Graph, c: Chain): Walk
    requires ValidGraph(g) && g.met(Top(c))
    decreases |Room(c)|, 3, 0
  {
    Sections(g, c, 0)
  }

  /** Strong fields, fields with conditions, points-to and virtual types, from section s on. */
  ghost function Sections(g: Graph, c: Chain, s: nat): Walk
    requires ValidGraph(g) && g.met(Top(c))
    decreases |Room(c)|, 2, if s < 4 then 4 - s else 0
  {
    if s == 0 then Then(Step([]), Then(Strongs(g, c, 0), Sections(g, c, 1)))
    else if s == 1 then Then(Step([]), Then(Conds(g, c, 0), Sections(g, c, 2)))
    else if s == 2 then Then(Step([]), Then(Points(g, c, 0), Sections(g, c, 3)))
    else if s == 3 then Then(Step([]), Then(Virts(g, c, 0), Sections(g, c, 4)))
    else Step([])
  }

  ghost function Strongs(g: Graph, c: Chain, k: nat): Walk
    requires ValidGraph(g) && g.met(Top(c))
    decreases |Room(c)|, 1, if k < g.strongs(Top(c)) then g.strongs(Top(c)) - k else 0
  {
    if k >= g.strongs(Top(c)) then Step([])
    else Then(Step([SeeStrong(Top(c), k)]), Then(Elements(g, c, Strong(k), 0), Strongs(g, c, k + 1)))
  }

  ghost function Conds(g: Graph, c: Chain, k: nat): Walk
    requires ValidGraph(g) && g.met(Top(c))
    decreases |Room(c)|, 1, if k < g.typed(Top(c)) then g.typed(Top(c)) - k else 0
  {
    if k >= g.typed(Top(c)) then Step([])
    else if !g.hasCond(Top(c), k) then Conds(g, c, k + 1)
    else if !g.present(Top(c), k) then Then(Only([SeeCond(Top(c), k)]), Conds(g, c, k + 1))
    else Then(Step([SeeCond(Top(c), k)]), Then(Elements(g, c, Cond(k), 0), Conds(g, c, k + 1)))
  }

  /** Array elements from index i. */
  ghost function Elements(g: Graph, c: Chain, f: Fld, i: nat): Walk
    requires ValidGraph(g) && g.met(Top(c))
    decreases |Room(c)|, 0, if i < g.elems(Top(c), f) then g.elems(Top(c), f) - i else 0
  {
    if i >= g.elems(Top(c), f) then Step([])
    else
      var x := Follow(c, Candidate(g, Top(c), f, Cursor(g, c, f, i), i));
      if x.Nothing? then Elements(g, c, f, i + 1)
      else
        Deeper(c, x.ti);
        Then(Step([SeeType(x.ti)]), Then(Visit(g, c + [x.ti]), Elements(g, c, f, i + 1)))
  }

  ghost function Points(g: Graph, c: Chain, k: nat): Walk
    requires ValidGraph(g) && g.met(Top(c))
    decreases |Room(c)|, 1, if k < g.points(Top(c)) then g.points(Top(c)) - k else 0
  {
    if k >= g.points(Top(c)) then Step([])
    else if !HasRange(g, Top(c), k) then Points(g, c, k + 1)
    else Then(Step([]), Then(Pointers(g, c, k, g.first(Top(c), k)), Points(g, c, k + 1)))
  }

  ghost function Pointers(g: Graph, c: Chain, k: nat, i: nat): Walk
    requires ValidGraph(g) && g.met(Top(c))
    decreases |Room(c)|, 0, if i <= g.last(Top(c), k) then g.last(Top(c), k) + 1 - i else 0
  {
    if i > g.last(Top(c), k) then Step([])
    else
      var x := Follow(c, g.pointee(Top(c), k, i));
      if x.Nothing? then Pointers(g, c, k, i + 1)
      else
        Deeper(c, x.ti);
        Then(Step([SeePoint(Top(c), k, i), SeeType(x.ti)]), Then(Visit(g, c + [x.ti]), Pointers(g, c, k, i + 1)))
  }

  ghost function Virts(g: Graph, c: Chain, k: nat): Walk
    requires ValidGraph(g) && g.met(Top(c))
    decreases |Room(c)|, 1, if k < g.virts(Top(c)) then g.virts(Top(c)) - k else 0
  {
    if k >= g.virts(Top(c)) then Step([])
    else Then(Step([]), Then(Virtuals(g, c, k, 0), Virts(g, c, k + 1)))
  }

  lemma VirtShort(g: Graph, ti: Ti, k: nat, i: nat)
    requires ValidGraph(g) && g.met(ti) && VirtReached(g, ti, k, i)
    ensures i < U32
  {
    if i > 0 { ReachedShort(g.sizes(ti, k), g.bits(ti, k), i); }
  }

  /** Virtual elements from index i, which the list reaches. */
  ghost function Virtuals(g: Graph, c: Chain, k: nat, i: nat): Walk
    requires ValidGraph(g) && g.met(Top(c)) && VirtReached(g, Top(c), k, i)
    decreases |Room(c)|, 0, if i < U32 then U32 - i else 0
  {
    VirtShort(g, Top(c), k, i);
    var x := FollowVirt(c, VirtAt(g, Top(c), k, i));
    if x.Stop? then Step([SeeVirt(Top(c), k, i)])
    else if x.Bad? then Then(Only([SeeVirt(Top(c), k, i)]), Virtuals(g, c, k, i + 1))
    else
      Deeper(c, x.ti);
      Then(Step([SeeVirt(Top(c), k, i), SeeType(x.ti)]), Then(Visit(g, c + [x.ti]), Virtuals(g, c, k, i + 1)))
  }
}
