/** The deep scan: a walk of the type graph with an explicit stack of frames, which visits
    what a simple recursion visits, in the same order, and so all that the tables lead to. The
    disk does not change during a scan and every callback asks to continue. */
module Scan {
  import opened Arith
  import opened Arrays
  import opened Virt
  import opened TypeGraph
  import opened Paths

  // ----- frames -----

  datatype Kind =
    | TypeFrame(section: nat)
    | StrongFrame(k: nat)
    | CondFrame(k: nat)
    | ArrayFrame(f: Fld, i: nat, count: nat, off: nat)
    | PointsFrame(k: nat)
    | RangeFrame(k: nat, i: nat, max: nat)
    | VirtsFrame(k: nat)
    | VirtFrame(k: nat, i: nat)

  datatype Frame = Frame(chain: Chain, kind: Kind)

  /** The frame's cached thunk values are those of its instance, an array frame carries the
      offset of its element, and a virtual frame an index that its list reaches. */
  ghost predicate ValidFrame(g: Graph, fr: Frame) {
    && g.met(Top(fr.chain)) && (fr.kind.TypeFrame? ==> fr.kind.section <= 4)
    && (fr.kind.ArrayFrame? ==>
          && fr.kind.count == g.elems(Top(fr.chain), fr.kind.f)
          && fr.kind.off == Cursor(g, fr.chain, fr.kind.f, fr.kind.i))
    && (fr.kind.RangeFrame? ==> fr.kind.max == g.last(Top(fr.chain), fr.kind.k))
    && (fr.kind.VirtFrame? ==> VirtReached(g, Top(fr.chain), fr.kind.k, fr.kind.i))
  }

  /** What a frame still has to visit. */
  ghost function Rest(g: Graph, fr: Frame): Walk
    requires ValidGraph(g) && ValidFrame(g, fr)
  {
    match fr.kind
    case TypeFrame(s) => Sections(g, fr.chain, s)
    case StrongFrame(k) => Strongs(g, fr.chain, k)
    case CondFrame(k) => Conds(g, fr.chain, k)
    case ArrayFrame(f, i, _, _) => Elements(g, fr.chain, f, i)
    case PointsFrame(k) => Points(g, fr.chain, k)
    case RangeFrame(k, i, _) => Pointers(g, fr.chain, k, i)
    case VirtsFrame(k) => Virts(g, fr.chain, k)
    case VirtFrame(k, i) => Virtuals(g, fr.chain, k, i)
  }

  /** sto_fill_next: the frame is done, or it moves on and a new frame goes on top of it. */
  datatype Outcome = Done | Push(updated: Frame, pushed: Frame)

  ghost predicate Advances(g: Graph, fr: Frame, es: seq<Event>, o: Outcome)
    requires ValidGraph(g) && ValidFrame(g, fr)
  {
    match o
    case Done => Rest(g, fr) == Step(es)
    case Push(u, p) =>
      && ValidFrame(g, u) && ValidFrame(g, p)
      && Rest(g, fr) == Then(Step(es), Then(Rest(g, p), Rest(g, u)))
  }

  method TypeNext(g: Graph, c: Chain, section: nat) returns (es: seq<Event>, o: Outcome)
    requires ValidGraph(g) && g.met(Top(c)) && section <= 4
    ensures Advances(g, Frame(c, TypeFrame(section)), es, o)
  {
    es := [];
    if section == 4 { return es, Done; }
    var kind := if section == 0 then StrongFrame(0) else if section == 1 then CondFrame(0)
                else if section == 2 then PointsFrame(0) else VirtsFrame(0);
    o := Push(Frame(c, TypeFrame(section + 1)), Frame(c, kind));
  }

  /** stkop_fieldarray_init */
  function ArrayStart(g: Graph, c: Chain, f: Fld): Frame {
    Frame(c, ArrayFrame(f, 0, g.elems(Top(c), f), g.offset(Top(c), f)))
  }

  method StrongNext(g: Graph, c: Chain, k: nat) returns (es: seq<Event>, o: Outcome)
    requires ValidGraph(g) && g.met(Top(c))
    ensures Advances(g, Frame(c, StrongFrame(k)), es, o)
  {
    es := [];
    if k >= g.strongs(Top(c)) { return es, Done; }
    es := [SeeStrong(Top(c), k)];
    o := Push(Frame(c, StrongFrame(k + 1)), ArrayStart(g, c, Strong(k)));
  }

  /** Skips fields without a condition. */
  method SkipPlain(g: Graph, c: Chain, k: nat) returns (i: nat)
    requires ValidGraph(g) && g.met(Top(c))
    ensures k <= i && Conds(g, c, i) == Conds(g, c, k)
    ensures i < g.typed(Top(c)) ==> g.hasCond(Top(c), i)
  {
    i := k;
    while i < g.typed(Top(c)) && !g.hasCond(Top(c), i)
      invariant k <= i && Conds(g, c, i) == Conds(g, c, k)
    {
      i := i + 1;
    }
  }

  /** A field whose condition does not hold is reported and skipped. */
  lemma CondReports(g: Graph, c: Chain, k: nat, i: nat, es: seq<Event>, o: Outcome)
    requires ValidGraph(g) && g.met(Top(c)) && Conds(g, c, i) == Conds(g, c, k)
    requires i < g.typed(Top(c)) && g.hasCond(Top(c), i) && !g.present(Top(c), i)
    requires Advances(g, Frame(c, CondFrame(i + 1)), es, o)
    ensures Advances(g, Frame(c, CondFrame(k)), [SeeCond(Top(c), i)] + es, o)
  {
    var see := [SeeCond(Top(c), i)];
    if o.Done? {
      Prepend(see, es, Step([]));
    } else {
      Prepend(see, es, Then(Rest(g, o.pushed), Rest(g, o.updated)));
    }
  }

  /** Skips to the next field whose condition holds, reporting those that do not. */
  method CondNext(g: Graph, c: Chain, k: nat) returns (es: seq<Event>, o: Outcome)
    requires ValidGraph(g) && g.met(Top(c))
    ensures Advances(g, Frame(c, CondFrame(k)), es, o)
    decreases if k < g.typed(Top(c)) then g.typed(Top(c)) - k else 0
  {
    var i := SkipPlain(g, c, k);
    if i >= g.typed(Top(c)) { return [], Done; }
    if !g.present(Top(c), i) {
      es, o := CondNext(g, c, i + 1);
      CondReports(g, c, k, i, es, o);
      es := [SeeCond(Top(c), i)] + es;
    } else {
      es := [SeeCond(Top(c), i)];
      o := Push(Frame(c, CondFrame(i + 1)), ArrayStart(g, c, Cond(i)));
    }
  }

  lemma CursorNext(g: Graph, c: Chain, f: Fld, i: nat)
    ensures Cursor(g, c, f, i + 1) ==
            var off := Cursor(g, c, f, i);
            var x := Follow(c, Candidate(g, Top(c), f, off, i));
            Plus(off, if x.Found? then g.size(x.ti) else g.typeSize(Top(c), f))
  {
  }

  /** Skips elements that cannot be followed. */
  method ArrayNext(g: Graph, c: Chain, f: Fld, i0: nat, count: nat, off0: nat) returns (es: seq<Event>, o: Outcome)
    requires ValidGraph(g) && g.met(Top(c)) && ValidFrame(g, Frame(c, ArrayFrame(f, i0, count, off0)))
    ensures Advances(g, Frame(c, ArrayFrame(f, i0, count, off0)), es, o)
  {
    var i, off, x := SkipElements(g, c, f, i0, count, off0);
    if x.Nothing? { return [], Done; }
    CursorNext(g, c, f, i);
    off := Plus(off, g.size(x.ti));
    es := [SeeType(x.ti)];
    o := Push(Frame(c, ArrayFrame(f, i + 1, count, off)), Frame(c + [x.ti], TypeFrame(0)));
  }

  method SkipElements(g: Graph, c: Chain, f: Fld, i0: nat, count: nat, off0: nat) returns (i: nat, off: nat, x: Found)
    requires ValidGraph(g) && g.met(Top(c)) && count == g.elems(Top(c), f) && off0 == Cursor(g, c, f, i0)
    ensures i0 <= i && off == Cursor(g, c, f, i) && Elements(g, c, f, i) == Elements(g, c, f, i0)
    ensures if x.Nothing? then i >= count else i < count && x == Follow(c, Candidate(g, Top(c), f, off, i))
  {
    i, off, x := i0, off0, Nothing;
    while i < count
      invariant i0 <= i && off == Cursor(g, c, f, i) && Elements(g, c, f, i) == Elements(g, c, f, i0)
    {
      CursorNext(g, c, f, i);
      x := TryFollow(c, Candidate(g, Top(c), f, off, i));
      if x.Found? { return; }
      off := Plus(off, g.typeSize(Top(c), f));
      i := i + 1;
    }
    x := Nothing;
  }

  method TryFollow(c: Chain, f: Found) returns (x: Found)
    ensures x == Follow(c, f)
  {
    if f.Nothing? { return f; }
    var loop := CheckLoop(c, f.ti);
    x := if loop then Nothing else f;
  }

  /** Skips points-to tables with an empty range. */
  method PointsNext(g: Graph, c: Chain, k0: nat) returns (es: seq<Event>, o: Outcome)
    requires ValidGraph(g) && g.met(Top(c))
    ensures Advances(g, Frame(c, PointsFrame(k0)), es, o)
  {
    var k := k0;
    while k < g.points(Top(c))
      invariant k0 <= k && Points(g, c, k) == Points(g, c, k0)
    {
      var min, max := g.first(Top(c), k), g.last(Top(c), k);
      if min != U64 - 1 && min <= max {
        return [], Push(Frame(c, PointsFrame(k + 1)), Frame(c, RangeFrame(k, min, max)));
      }
      k := k + 1;
    }
    return [], Done;
  }

  method RangeNext(g: Graph, c: Chain, k: nat, i0: nat, max: nat) returns (es: seq<Event>, o: Outcome)
    requires ValidGraph(g) && g.met(Top(c)) && max == g.last(Top(c), k)
    ensures Advances(g, Frame(c, RangeFrame(k, i0, max)), es, o)
  {
    if i0 > max { return [], Done; }
    var i := i0;
    var x := Nothing;
    while i <= max
      invariant i0 <= i && x.Nothing?
      invariant Pointers(g, c, k, i) == Pointers(g, c, k, i0)
    {
      x := TryFollow(c, g.pointee(Top(c), k, i));
      if x.Found? { break; }
      i := i + 1;
    }
    if x.Nothing? { return [], Done; }
    es := [SeePoint(Top(c), k, i), SeeType(x.ti)];
    o := Push(Frame(c, RangeFrame(k, i + 1, max)), Frame(c + [x.ti], TypeFrame(0)));
  }

  method VirtsNext(g: Graph, c: Chain, k: nat) returns (es: seq<Event>, o: Outcome)
    requires ValidGraph(g) && g.met(Top(c))
    ensures Advances(g, Frame(c, VirtsFrame(k)), es, o)
  {
    if k >= g.virts(Top(c)) { return [], Done; }
    return [], Push(Frame(c, VirtsFrame(k + 1)), Frame(c, VirtFrame(k, 0)));
  }

  method TryVirt(g: Graph, c: Chain, k: nat, i: nat) returns (x: VFound)
    requires ValidGraph(g) && g.met(Top(c)) && VirtReached(g, Top(c), k, i)
    ensures x == FollowVirt(c, VirtAt(g, Top(c), k, i))
  {
    x := AllocVirt(g, Top(c), k, i);
    if x.VFound? {
      var loop := CheckLoop(c, x.ti);
      if loop { x := Bad; }
    }
  }

  /** Events reported before a step belong to it. */
  lemma Prepend(es: seq<Event>, fs: seq<Event>, w: Walk)
    ensures Then(Only(es), Then(Only(fs), w)) == Then(Only(es + fs), w)
    ensures Then(Only(es), Then(Step(fs), w)) == Then(Step(es + fs), w)
    ensures Then(Only(es), Step(fs)) == Step(es + fs)
  {
  }

  /** typeinfo_alloc_virt_idx, up to the ancestor check: the search for the offset of the
      element, which is not 0 for a later one, and then what is there. */
  method AllocVirt(g: Graph, ti: Ti, k: nat, i: nat) returns (x: VFound)
    requires ValidGraph(g) && g.met(ti) && VirtReached(g, ti, k, i)
    ensures x == VirtAt(g, ti, k, i)
  {
    if !g.mapped(ti, k) { return Stop; }
    var s, bits := g.sizes(ti, k), g.bits(ti, k);
    var off := 0;
    if i != 0 {
      off := GetNth(s, bits, i);
      if IsBad(off) { return Stop; }
      if off == 0 { NeverAtZero(s, bits, i); }
      assert off != 0;
    }
    x := g.inside(ti, k, off);
  }

  lemma VirtGoesOn(g: Graph, ti: Ti, k: nat, i: nat)
    requires VirtReached(g, ti, k, i) && !VirtAt(g, ti, k, i).Stop?
    ensures VirtReached(g, ti, k, i + 1)
  {
    forall j: nat | 1 <= j < i + 1 ensures Accepted(g.sizes(ti, k), g.bits(ti, k), j) {
      if j < i { assert Accepted(g.sizes(ti, k), g.bits(ti, k), j); }
    }
  }

  /** The search has come from index i0 to index i, where it finds x, and reported es. */
  ghost predicate VirtSoFar(g: Graph, c: Chain, k: nat, i0: nat, i: nat, x: VFound, es: seq<Event>)
    requires ValidGraph(g) && g.met(Top(c)) && VirtReached(g, Top(c), k, i0)
  {
    && VirtReached(g, Top(c), k, i) && x == FollowVirt(c, VirtAt(g, Top(c), k, i))
    && Virtuals(g, c, k, i0) == Then(Only(es), Virtuals(g, c, k, i))
  }

  /** An element that cannot be followed is reported and skipped. */
  lemma VirtSkips(g: Graph, c: Chain, k: nat, i0: nat, i: nat, es: seq<Event>)
    requires ValidGraph(g) && g.met(Top(c)) && VirtReached(g, Top(c), k, i0) && VirtSoFar(g, c, k, i0, i, Bad, es)
    ensures i < U32 && VirtReached(g, Top(c), k, i + 1)
    ensures VirtSoFar(g, c, k, i0, i + 1, FollowVirt(c, VirtAt(g, Top(c), k, i + 1)), es + [SeeVirt(Top(c), k, i)])
  {
    VirtShort(g, Top(c), k, i);
    VirtGoesOn(g, Top(c), k, i);
    Prepend(es, [SeeVirt(Top(c), k, i)], Virtuals(g, c, k, i + 1));
  }

  /** Reports every element that it tries, up to the first that can be followed. */
  method VirtNext(g: Graph, c: Chain, k: nat, i0: nat) returns (es: seq<Event>, o: Outcome)
    requires ValidGraph(g) && g.met(Top(c)) && VirtReached(g, Top(c), k, i0)
    ensures Advances(g, Frame(c, VirtFrame(k, i0)), es, o)
  {
    es := [];
    var i := i0;
    var x := TryVirt(g, c, k, i);
    while x.Bad?
      invariant VirtSoFar(g, c, k, i0, i, x, es)
      decreases if i < U32 then U32 - i else 0
    {
      VirtSkips(g, c, k, i0, i, es);
      es := es + [SeeVirt(Top(c), k, i)];
      i := i + 1;
      x := TryVirt(g, c, k, i);
    }
    es, o := VirtTail(g, c, k, i, x, es, i0);
  }

  /** The element that ends the search. */
  method VirtTail(g: Graph, c: Chain, k: nat, i: nat, x: VFound, es0: seq<Event>, ghost i0: nat)
      returns (es: seq<Event>, o: Outcome)
    requires ValidGraph(g) && g.met(Top(c)) && VirtReached(g, Top(c), k, i0)
    requires VirtSoFar(g, c, k, i0, i, x, es0) && !x.Bad?
    ensures Advances(g, Frame(c, VirtFrame(k, i0)), es, o)
  {
    var see := SeeVirt(Top(c), k, i);
    if x.Stop? {
      assert Virtuals(g, c, k, i) == Step([see]);
      Prepend(es0, [see], Step([]));
      return es0 + [see], Done;
    }
    VirtGoesOn(g, Top(c), k, i);
    es := es0 + [see, SeeType(x.ti)];
    var child, next := Frame(c + [x.ti], TypeFrame(0)), Frame(c, VirtFrame(k, i + 1));
    assert ValidFrame(g, child) && ValidFrame(g, next);
    assert Virtuals(g, c, k, i) == Then(Step([see, SeeType(x.ti)]), Then(Rest(g, child), Rest(g, next)));
    Prepend(es0, [see, SeeType(x.ti)], Then(Rest(g, child), Rest(g, next)));
    o := Push(next, child);
  }

  method FillNext(g: Graph, fr: Frame) returns (es: seq<Event>, o: Outcome)
    requires ValidGraph(g) && ValidFrame(g, fr)
    ensures Advances(g, fr, es, o)
  {
    match fr.kind
    case TypeFrame(s) => es, o := TypeNext(g, fr.chain, s);
    case StrongFrame(k) => es, o := StrongNext(g, fr.chain, k);
    case CondFrame(k) => es, o := CondNext(g, fr.chain, k);
    case ArrayFrame(f, i, n, off) => es, o := ArrayNext(g, fr.chain, f, i, n, off);
    case PointsFrame(k) => es, o := PointsNext(g, fr.chain, k);
    case RangeFrame(k, i, max) => es, o := RangeNext(g, fr.chain, k, i, max);
    case VirtsFrame(k) => es, o := VirtsNext(g, fr.chain, k);
    case VirtFrame(k, i) => es, o := VirtNext(g, fr.chain, k, i);
  }

  // ----- the driver -----

  /** A stack entry. Entries that are popped go to a free list and are used again. */
  class Entry {
    var frame: Frame
    var next: Entry?

    constructor (frame: Frame)
      ensures this.frame == frame && next == null
    {
      this.frame := frame;
      next := null;
    }
  }

  ghost function Succ(l: seq<Entry>, i: nat): Entry? { if i + 1 < |l| then l[i + 1] else null }

  /** The entries from head on are those of l. */
  ghost predicate Linked(head: Entry?, l: seq<Entry>)
    reads l
  {
    && (head == if l == [] then null else l[0])
    && forall i :: 0 <= i < |l| ==> l[i].next == Succ(l, i)
  }

  ghost predicate NoRepeat(l: seq<Entry>) { forall i, j :: 0 <= i < j < |l| ==> l[i] != l[j] }

  /** The stack and the free list share nothing. */
  ghost predicate Separate(stk: seq<Entry>, free: seq<Entry>) {
    && NoRepeat(stk) && NoRepeat(free)
    && forall i, j :: 0 <= i < |stk| && 0 <= j < |free| ==> stk[i] != free[j]
  }

  /** The entry is on neither list. */
  ghost predicate Apart(x: Entry, stk: seq<Entry>, free: seq<Entry>) {
    (forall i :: 0 <= i < |stk| ==> stk[i] != x) && (forall i :: 0 <= i < |free| ==> free[i] != x)
  }

  lemma LinkedTail(l: seq<Entry>)
    requires l != [] && Linked(l[0], l)
    ensures Linked(l[0].next, l[1..])
  {
    var t := l[1..];
    forall i | 0 <= i < |t| ensures t[i].next == Succ(t, i) {
      assert t[i] == l[i + 1] && l[i + 1].next == Succ(l, i + 1);
    }
    assert l[0].next == Succ(l, 0);
  }

  lemma LinkedCons(x: Entry, l: seq<Entry>)
    requires Linked(x.next, l)
    ensures Linked(x, [x] + l)
  {
    var m := [x] + l;
    forall i | 0 <= i < |m| ensures m[i].next == Succ(m, i) {
      if i > 0 { assert m[i] == l[i - 1] && l[i - 1].next == Succ(l, i - 1); }
    }
  }

  lemma SeparatePush(x: Entry, stk: seq<Entry>, free: seq<Entry>)
    requires Separate(stk, free) && Apart(x, stk, free)
    ensures Separate([x] + stk, free)
  {
  }

  ghost predicate AllValid(g: Graph, frames: seq<Frame>) {
    forall i :: 0 <= i < |frames| ==> ValidFrame(g, frames[i])
  }

  /** What all frames of the stack, top first, still have to visit. */
  ghost function RestAll(g: Graph, frames: seq<Frame>): Walk
    requires ValidGraph(g) && AllValid(g, frames)
  {
    if frames == [] then Only([]) else Then(Rest(g, frames[0]), RestAll(g, frames[1..]))
  }

  lemma RestTop(g: Graph, fr: Frame, below: seq<Frame>)
    requires ValidGraph(g) && ValidFrame(g, fr) && AllValid(g, below)
    ensures RestAll(g, [fr] + below) == Then(Rest(g, fr), RestAll(g, below))
  {
    assert ([fr] + below)[1..] == below;
  }

  lemma Popped(g: Graph, frames: seq<Frame>, es: seq<Event>)
    requires ValidGraph(g) && frames != [] && AllValid(g, frames) && Advances(g, frames[0], es, Done)
    ensures RestAll(g, frames) == Then(Step(es), RestAll(g, frames[1..]))
  {
  }

  lemma ThenAssoc(a: Walk, b: Walk, c: Walk)
    ensures Then(Then(a, b), c) == Then(a, Then(b, c))
  {
  }

  lemma Pushed(g: Graph, frames: seq<Frame>, es: seq<Event>, u: Frame, p: Frame)
    requires ValidGraph(g) && frames != [] && AllValid(g, frames) && Advances(g, frames[0], es, Push(u, p))
    ensures AllValid(g, [p, u] + frames[1..])
    ensures RestAll(g, frames) == Then(Step(es), RestAll(g, [p, u] + frames[1..]))
  {
    var t := frames[1..];
    RestTop(g, u, t);
    RestTop(g, p, [u] + t);
    assert [p] + ([u] + t) == [p, u] + t;
    ThenAssoc(Step(es), Then(Rest(g, p), Rest(g, u)), RestAll(g, t));
    ThenAssoc(Rest(g, p), Rest(g, u), RestAll(g, t));
  }

  /** The stack of frames, linked, with its free list and the spare entry for the next push. */
  class Stack {
    var head: Entry?
    var freed: Entry?
    var spare: Entry
    ghost var stk: seq<Entry>
    ghost var free: seq<Entry>
    ghost var frames: seq<Frame>  // of the stack, top first
    ghost var Repr: set<object>

    ghost predicate Lists()
      reads this, Repr
    {
      && this in Repr && (forall x <- stk :: x in Repr) && (forall x <- free :: x in Repr)
      && Linked(head, stk) && Linked(freed, free) && Separate(stk, free)
      && |frames| == |stk| && (forall i :: 0 <= i < |stk| ==> stk[i].frame == frames[i])
    }

    ghost predicate Valid()
      reads this, Repr
    {
      Lists() && spare in Repr && Apart(spare, stk, free)
    }

    constructor (start: Frame)
      ensures Valid() && fresh(Repr) && frames == [start]
    {
      var first := new Entry(start);
      head := first;
      spare := new Entry(start);
      freed := null;
      stk, free, frames := [first], [], [start];
      new;
      Repr := {this, first, spare};
    }

    /** The top entry goes to the free list. */
    method Pop()
      requires Valid() && head != null
      modifies Repr
      ensures Valid() && Repr == old(Repr)
      ensures frames == old(frames)[1..]
    {
      var top := head;
      Unlink();
      Release(top);
    }

    method Unlink()
      requires Valid() && head != null
      modifies this
      ensures Valid() && Repr == old(Repr) && frames == old(frames)[1..] && spare == old(spare)
      ensures old(head) in Repr && old(head) != spare && Apart(old(head), stk, free)
    {
      ghost var s := stk[1..];
      LinkedTail(stk);
      assert forall i :: 0 <= i < |s| ==> s[i] == stk[i + 1];
      head := head.next;
      stk, frames := s, frames[1..];
    }

    method Release(x: Entry)
      requires Valid() && x in Repr && x != spare && Apart(x, stk, free)
      modifies this, x
      ensures Valid() && Repr == old(Repr) && frames == old(frames)
    {
      ghost var f := free;
      x.next := freed;
      freed := x;
      assert Linked(x.next, f);
      LinkedCons(x, f);
      free := [x] + f;
    }

    /** The top frame moves on to u, and p goes on top of it. */
    method Push(u: Frame, p: Frame)
      requires Valid() && head != null
      modifies Repr
      ensures Valid() && fresh(Repr - old(Repr))
      ensures frames == [p, u] + old(frames)[1..]
    {
      ghost var s := stk;
      assert head == s[0];
      head.frame := u;
      spare.frame := p;
      spare.next := head;
      assert Linked(spare.next, s);
      LinkedCons(spare, s);
      SeparatePush(spare, s, free);
      stk, frames := [spare] + s, [p, u] + frames[1..];
      head := spare;
      Refill();
    }

    /** A new spare entry, from the free list if it has one. */
    method Refill()
      requires Lists() && head != null
      modifies this, free
      ensures Valid() && fresh(Repr - old(Repr)) && old(Repr) <= Repr
      ensures stk == old(stk) && frames == old(frames)
    {
      if freed != null {
        ghost var f := free[1..];
        LinkedTail(free);
        assert forall i :: 0 <= i < |f| ==> f[i] == free[i + 1] && f[i] != free[0];
        spare := freed;
        freed := spare.next;
        spare.next := null;
        free := f;
        assert Linked(freed, f);
      } else {
        spare := new Entry(head.frame);
        Repr := Repr + {spare};
      }
    }
  }

  /** scan_stk_next: one step of the driver. */
  method StackNext(g: Graph, s: Stack) returns (es: seq<Event>)
    requires ValidGraph(g) && s.Valid() && s.head != null && AllValid(g, s.frames)
    modifies s.Repr
    ensures s.Valid() && fresh(s.Repr - old(s.Repr)) && AllValid(g, s.frames)
    ensures RestAll(g, old(s.frames)) == Then(Step(es), RestAll(g, s.frames))
  {
    ghost var frames := s.frames;
    assert frames[0] == s.head.frame;
    var o;
    es, o := FillNext(g, s.head.frame);
    if o.Done? {
      Popped(g, frames, es);
      s.Pop();
    } else {
      Pushed(g, frames, es, o.updated, o.pushed);
      s.Push(o.updated, o.pushed);
    }
  }

  /** scan_type_deep: the root, and then every event of the tables below it exactly once, in the
      order of the paths. These are the events of the recursion, and the driver stops after
      exactly as many steps as the recursion counts. */
  method ScanTypeDeep(g: Graph, root: Ti) returns (trace: seq<Event>, steps: nat, ghost paths: seq<Path>)
    requires ValidGraph(g) && g.met(root)
    ensures |trace| > 0 && trace[0] == SeeType(root) && Lists(g, [root], trace[1..], paths, START, END)
    ensures trace[1..] == Visit(g, [root]).events && steps == Visit(g, [root]).steps
  {
    trace := [];
    steps := 0;
    var start := Frame([root], TypeFrame(0));
    var s := new Stack(start);
    RestTop(g, start, []);
    assert [start] + [] == s.frames;
    while s.head != null
      invariant s.Valid() && fresh(s.Repr) && AllValid(g, s.frames)
      invariant Visit(g, [root]) == Then(Walk(trace, steps), RestAll(g, s.frames))
      decreases RestAll(g, s.frames).steps
    {
      var es := StackNext(g, s);
      ThenAssoc(Walk(trace, steps), Step(es), RestAll(g, s.frames));
      trace := trace + es;
      steps := steps + 1;
    }
    assert s.frames == [];
    paths := VisitLists(g, [root]);
    trace := [SeeType(root)] + trace;
  }

  // ----- what the scan rests on -----

  /** The frame of a virtual list is popped within n more elements; its 32-bit index starts
      over after the last one. */
  ghost predicate PopsWithin(g: Graph, ti: Ti, k: nat, i: nat, n: nat)
    requires i < U32
    decreases n
  {
    n > 0 && (VirtAt(g, ti, k, i).Stop? || PopsWithin(g, ti, k, if i + 1 < U32 then i + 1 else 0, n - 1))
  }

  ghost predicate PopsSometime(g: Graph, ti: Ti, k: nat, i: nat)
    requires i < U32
  {
    exists n: nat :: PopsWithin(g, ti, k, i, n)
  }

  /** The frame is popped at some time exactly when the list is bounded. */
  lemma ListEndsExactly(g: Graph, ti: Ti, k: nat)
    requires g.mapped(ti, k) && forall off: nat :: !g.inside(ti, k, off).Stop?
    ensures PopsSometime(g, ti, k, 0) <==> Bounded(g.sizes(ti, k), g.bits(ti, k))
  {
    var s, bits := g.sizes(ti, k), g.bits(ti, k);
    if Bounded(s, bits) {
      var i: nat :| 1 <= i < U32 && !Accepted(s, bits, i);
      PopsAt(g, ti, k, 0, i);
    } else {
      forall n: nat ensures !PopsWithin(g, ti, k, 0, n) { NeverPops(g, ti, k, 0, n); }
    }
  }

  lemma {:induction false} PopsAt(g: Graph, ti: Ti, k: nat, i: nat, stop: nat)
    requires i <= stop < U32 && VirtAt(g, ti, k, stop).Stop?
    ensures PopsWithin(g, ti, k, i, stop - i + 1) && PopsSometime(g, ti, k, i)
    decreases stop - i
  {
    var n: nat := stop - i + 1;
    if i < stop {
      PopsAt(g, ti, k, i + 1, stop);
      assert PopsWithin(g, ti, k, i + 1, n - 1);
    }
    assert PopsWithin(g, ti, k, i, n);
  }

  lemma {:induction false} NeverPops(g: Graph, ti: Ti, k: nat, i: nat, n: nat)
    requires i < U32 && g.mapped(ti, k) && !Bounded(g.sizes(ti, k), g.bits(ti, k))
    requires forall off: nat :: !g.inside(ti, k, off).Stop?
    ensures !PopsWithin(g, ti, k, i, n)
    decreases n
  {
    assert Accepted(g.sizes(ti, k), g.bits(ti, k), i);
    if n > 0 { NeverPops(g, ti, k, if i + 1 < U32 then i + 1 else 0, n - 1); }
  }

  /** Element sizes with which the frame of a list is never popped, so that the stack never
      becomes empty. */
  lemma EndlessList(g: Graph, ti: Ti, k: nat, n: nat)
    requires g.mapped(ti, k) && g.bits(ti, k) == 128 && forall off: nat :: !g.inside(ti, k, off).Stop?
    requires g.sizes(ti, k) == Sizes(off => ThereAndBack(off), _ => false)
    ensures !PopsWithin(g, ti, k, 0, n) && !VirtEnds(g, ti, k)
  {
    LoopingSizes();
    LoopsEndless(g.sizes(ti, k), 128);
    NeverPops(g, ti, k, 0, n);
  }

  /** The offset that an array frame carries is the element's, at every index, exactly when
      each element that cannot be followed has the reported size. */
  lemma CursorExact(g: Graph, c: Chain, f: Fld, n: nat)
    requires Truthful(ArrayField(g, Top(c), f))
    ensures (forall i: nat :: i <= n ==> CursorRight(g, c, f, i)) <==>
            (forall i: nat :: i < n ==> Counted(ArrayField(g, Top(c), f), CanFollow(g, c, f), i))
  {
    var a, ok := ArrayField(g, Top(c), f), CanFollow(g, c, f);
    ScanExact(a, ok, n);
    forall i: nat ensures CursorRight(g, c, f, i) <==> Agrees(a, ok, i) { LookupAgrees(a, i); }
  }

  /** The scanner tries element i where ti_field_off says it is. */
  ghost predicate CursorRight(g: Graph, c: Chain, f: Fld, i: nat) {
    Cursor(g, c, f, i) == FieldOffset(ArrayField(g, Top(c), f), i)
  }
}
