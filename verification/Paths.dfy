/** The events of a deep scan without a scan. Every event has a path through the tables of the
    graph, and the events come in the order of their paths, each exactly once. */
module Paths {
  import opened Arith
  import opened Virt
  import opened TypeGraph

  /** Where something is in an instance: the section (strong fields, fields with conditions,
      points-to, virtual types), the entry of its table, and the position there, which is 0 for
      a field itself and i + 1 for its element i. What is found there comes after what is
      reported about it. */
  datatype At = At(section: nat, k: nat, pos: nat, inner: bool)

  type Path = seq<At>

  predicate Before(s: At, t: At) {
    if s.section != t.section then s.section < t.section
    else if s.k != t.k then s.k < t.k
    else if s.pos != t.pos then s.pos < t.pos
    else !s.inner && t.inner
  }

  /** The lexicographic order; a path comes before those that it leads to. */
  predicate PathBefore(p: Path, q: Path) {
    q != [] && (p == [] || Before(p[0], q[0]) || (p[0] == q[0] && PathBefore(p[1..], q[1..])))
  }

  datatype Maybe = None | Some(event: Event)

  /** The field is scanned: a strong field, or a field whose condition holds. */
  predicate Live(g: Graph, ti: Ti, f: Fld) {
    if f.Strong? then f.k < g.strongs(ti) else f.k < g.typed(ti) && g.hasCond(ti, f.k) && g.present(ti, f.k)
  }

  function FieldOf(section: nat, k: nat): Fld { if section == 0 then Strong(k) else Cond(k) }

  /** Every element before i of a virtual type exists. */
  ghost predicate Tried(g: Graph, ti: Ti, k: nat, i: nat) { forall j: nat :: j < i ==> !VirtAt(g, ti, k, j).Stop? }

  /** The instance that is found at a place, unless its place is on the chain already. */
  ghost function Child(g: Graph, c: Chain, s: At): Found {
    var ti := Top(c);
    if !s.inner then Nothing
    else if s.section < 2 then
      var f := FieldOf(s.section, s.k);
      if Live(g, ti, f) && 1 <= s.pos <= g.elems(ti, f)
      then Follow(c, Candidate(g, ti, f, Cursor(g, c, f, s.pos - 1), s.pos - 1)) else Nothing
    else if s.section == 2 then
      if s.k < g.points(ti) && HasRange(g, ti, s.k) && g.first(ti, s.k) <= s.pos <= g.last(ti, s.k)
      then Follow(c, g.pointee(ti, s.k, s.pos)) else Nothing
    else if s.section == 3 && s.k < g.virts(ti) && Tried(g, ti, s.k, s.pos) then
      var x := FollowVirt(c, VirtAt(g, ti, s.k, s.pos));
      if x.VFound? then Found(x.ti) else Nothing
    else Nothing
  }

  /** What is reported about a place: strong fields, fields with a condition, present or not,
      pointers that are followed, and virtual elements that are tried. */
  ghost function Report(g: Graph, c: Chain, s: At): Maybe {
    var ti := Top(c);
    if s.inner then None
    else if s.section == 0 then if s.pos == 0 && s.k < g.strongs(ti) then Some(SeeStrong(ti, s.k)) else None
    else if s.section == 1 then
      if s.pos == 0 && s.k < g.typed(ti) && g.hasCond(ti, s.k) then Some(SeeCond(ti, s.k)) else None
    else if s.section == 2 then
      if Child(g, c, s.(inner := true)).Found? then Some(SeePoint(ti, s.k, s.pos)) else None
    else if s.section == 3 && s.k < g.virts(ti) && Tried(g, ti, s.k, s.pos) then Some(SeeVirt(ti, s.k, s.pos))
    else None
  }

  /** The event at the end of a path, which leads from instance to instance. */
  ghost function EventAt(g: Graph, c: Chain, p: Path): Maybe
    decreases |p|
  {
    if p == [] then None
    else if !p[0].inner then if |p| == 1 then Report(g, c, p[0]) else None
    else
      var x := Child(g, c, p[0]);
      if x.Nothing? then None
      else if |p| == 1 then Some(SeeType(x.ti))
      else EventAt(g, c + [x.ti], p[1..])
  }

  const START: At := At(0, 0, 0, false)
  const END: At := At(4, 0, 0, false)

  predicate Within(s: At, lo: At, hi: At) { !Before(s, lo) && Before(s, hi) }

  ghost predicate Sorted(ps: seq<Path>) { forall i, j :: 0 <= i < j < |ps| ==> PathBefore(ps[i], ps[j]) }

  /** The path starts within the bounds and ends at an event. */
  ghost predicate Gives(g: Graph, c: Chain, lo: At, hi: At, p: Path) {
    p != [] && Within(p[0], lo, hi) && EventAt(g, c, p).Some?
  }

  /** The paths ps are all those that start within the bounds and end at an event, in order, and
      es are these events. */
  ghost predicate Lists(g: Graph, c: Chain, es: seq<Event>, ps: seq<Path>, lo: At, hi: At) {
    && |ps| == |es| && Sorted(ps)
    && (forall n :: 0 <= n < |ps| ==> Gives(g, c, lo, hi, ps[n]) && EventAt(g, c, ps[n]) == Some(es[n]))
    && (forall p: Path :: Gives(g, c, lo, hi, p) ==> p in ps)
  }

  // ----- listings are put together -----

  lemma Join(g: Graph, c: Chain, es: seq<Event>, ps: seq<Path>, fs: seq<Event>, qs: seq<Path>, lo: At, mid: At, hi: At)
    requires Lists(g, c, es, ps, lo, mid) && Lists(g, c, fs, qs, mid, hi) && !Before(mid, lo) && !Before(hi, mid)
    ensures Lists(g, c, es + fs, ps + qs, lo, hi)
  {
    var rs, all := ps + qs, es + fs;
    forall n | 0 <= n < |rs| ensures Gives(g, c, lo, hi, rs[n]) && EventAt(g, c, rs[n]) == Some(all[n]) {
      if n < |ps| { assert Gives(g, c, lo, mid, ps[n]); } else { assert Gives(g, c, mid, hi, qs[n - |ps|]); }
    }
    forall i, j | 0 <= i < j < |rs| ensures PathBefore(rs[i], rs[j]) {
      if i < |ps| <= j {
        assert Gives(g, c, lo, mid, ps[i]) && Gives(g, c, mid, hi, qs[j - |ps|]);
      }
    }
    forall p: Path | Gives(g, c, lo, hi, p) ensures p in rs {
      assert Gives(g, c, lo, mid, p) || Gives(g, c, mid, hi, p);
    }
  }

  /** No event comes from a place within the bounds. */
  ghost predicate Quiet(g: Graph, c: Chain, lo: At, hi: At) {
    forall s: At :: Within(s, lo, hi) ==> Report(g, c, s).None? && Child(g, c, s).Nothing?
  }

  lemma NoEvents(g: Graph, c: Chain, lo: At, hi: At)
    requires Quiet(g, c, lo, hi)
    ensures Lists(g, c, [], [], lo, hi)
  {
    forall p: Path | p != [] && Within(p[0], lo, hi) ensures EventAt(g, c, p).None? {
      assert Report(g, c, p[0]).None? && Child(g, c, p[0]).Nothing?;
    }
  }

  lemma Widen(g: Graph, c: Chain, es: seq<Event>, ps: seq<Path>, lo: At, mid: At, hi: At)
    requires Quiet(g, c, lo, mid) && Lists(g, c, es, ps, mid, hi) && !Before(mid, lo)
    ensures Lists(g, c, es, ps, lo, hi)
  {
    NoEvents(g, c, lo, mid);
    forall p: Path | Gives(g, c, lo, hi, p) ensures p in ps {
      assert Gives(g, c, lo, mid, p) || Gives(g, c, mid, hi, p);
    }
    forall n | 0 <= n < |ps| ensures Gives(g, c, lo, hi, ps[n]) { assert Gives(g, c, mid, hi, ps[n]); }
  }

  /** There are four sections. */
  lemma Early(g: Graph, c: Chain, p: Path)
    requires EventAt(g, c, p).Some?
    ensures Gives(g, c, START, END, p)
  {
  }

  /** The paths through place s. */
  ghost function Through(s: At, ps: seq<Path>): (qs: seq<Path>)
    ensures |qs| == |ps| + 1 && qs[0] == [s]
    ensures forall n :: 1 <= n < |qs| ==> qs[n] == [s] + ps[n - 1]
  {
    [[s]] + seq(|ps|, n requires 0 <= n < |ps| => [s] + ps[n])
  }

  lemma ThroughSorted(g: Graph, c: Chain, s: At, es: seq<Event>, ps: seq<Path>)
    requires Lists(g, c, es, ps, START, END)
    ensures Sorted(Through(s, ps))
  {
    var qs := Through(s, ps);
    forall i, j | 0 <= i < j < |qs| ensures PathBefore(qs[i], qs[j]) {
      assert Gives(g, c, START, END, ps[j - 1]);
      assert qs[j] == [s] + ps[j - 1] && qs[j][1..] == ps[j - 1];
      if i > 0 { assert qs[i] == [s] + ps[i - 1] && qs[i][1..] == ps[i - 1]; }
    }
  }

  /** The listing of what is found at place s. */
  lemma Nest(g: Graph, c: Chain, s: At, es: seq<Event>, ps: seq<Path>)
    requires s.inner && Child(g, c, s).Found? && Lists(g, c + [Child(g, c, s).ti], es, ps, START, END)
    ensures Lists(g, c, [SeeType(Child(g, c, s).ti)] + es, Through(s, ps), s, Next(s))
  {
    var qs, all := Through(s, ps), [SeeType(Child(g, c, s).ti)] + es;
    ThroughSorted(g, c + [Child(g, c, s).ti], s, es, ps);
    forall n | 0 <= n < |qs| ensures Gives(g, c, s, Next(s), qs[n]) && EventAt(g, c, qs[n]) == Some(all[n]) {
      NestOne(g, c, s, es, ps, n);
    }
    forall p: Path | Gives(g, c, s, Next(s), p) ensures p in qs { NestAll(g, c, s, es, ps, p); }
  }

  /** The place behind s. */
  function Next(s: At): At { At(s.section, s.k, s.pos + 1, false) }

  lemma NestOne(g: Graph, c: Chain, s: At, es: seq<Event>, ps: seq<Path>, n: nat)
    requires s.inner && Child(g, c, s).Found? && Lists(g, c + [Child(g, c, s).ti], es, ps, START, END) && n <= |ps|
    ensures Gives(g, c, s, Next(s), Through(s, ps)[n])
    ensures EventAt(g, c, Through(s, ps)[n]) == Some(([SeeType(Child(g, c, s).ti)] + es)[n])
  {
    if n > 0 {
      assert Gives(g, c + [Child(g, c, s).ti], START, END, ps[n - 1]);
      var p := Through(s, ps)[n];
      assert p[0] == s && p[1..] == ps[n - 1];
    }
  }

  lemma NestAll(g: Graph, c: Chain, s: At, es: seq<Event>, ps: seq<Path>, p: Path)
    requires s.inner && Child(g, c, s).Found? && Lists(g, c + [Child(g, c, s).ti], es, ps, START, END)
    requires Gives(g, c, s, Next(s), p)
    ensures p in Through(s, ps)
  {
    assert p[0] == s;
    if |p| == 1 {
      assert p == [s];
    } else {
      Early(g, c + [Child(g, c, s).ti], p[1..]);
      assert p == [s] + p[1..];
    }
    ThroughHas(s, ps, p);
  }

  lemma ThroughHas(s: At, ps: seq<Path>, p: Path)
    requires p == [s] || (p != [] && p == [s] + p[1..] && p[1..] in ps)
    ensures p in Through(s, ps)
  {
    var qs := Through(s, ps);
    if p == [s] {
      assert qs[0] == p;
    } else {
      var n :| 0 <= n < |ps| && ps[n] == p[1..];
      assert qs[n + 1] == p;
    }
  }

  function Told(r: Maybe): seq<Event> { if r.Some? then [r.event] else [] }

  /** One place: what is reported about it, and what is found there with all that it leads to. */
  ghost function Here(g: Graph, c: Chain, section: nat, k: nat, pos: nat, es: seq<Event>): seq<Event> {
    var x, r := Child(g, c, At(section, k, pos, true)), Report(g, c, At(section, k, pos, false));
    var found := if x.Found? then [SeeType(x.ti)] + es else [];
    if r.Some? then [r.event] + found else found
  }

  lemma OnePlace(g: Graph, c: Chain, section: nat, k: nat, pos: nat, es: seq<Event>, ps: seq<Path>)
      returns (qs: seq<Path>)
    requires var x := Child(g, c, At(section, k, pos, true)); x.Found? ==> Lists(g, c + [x.ti], es, ps, START, END)
    ensures Lists(g, c, Here(g, c, section, k, pos, es), qs, At(section, k, pos, false), At(section, k, pos + 1, false))
  {
    var s, t, hi := At(section, k, pos, false), At(section, k, pos, true), At(section, k, pos + 1, false);
    var first := OneReport(g, c, s);
    var second := [];
    if Child(g, c, t).Found? { Nest(g, c, t, es, ps); second := Through(t, ps); } else { NoEvents(g, c, t, hi); }
    Join(g, c, Told(Report(g, c, s)), first,
         if Child(g, c, t).Found? then [SeeType(Child(g, c, t).ti)] + es else [], second, s, t, hi);
    qs := first + second;
  }

  lemma Regroup(es: seq<Event>, fs: seq<Event>, gs: seq<Event>)
    ensures es + (fs + gs) == es + fs + gs
  {
  }

  lemma Pair(e: Event, x: Found, es: seq<Event>)
    ensures x.Found? ==> [e] + ([SeeType(x.ti)] + es) == [e, SeeType(x.ti)] + es
  {
  }

  lemma OneReport(g: Graph, c: Chain, s: At) returns (ps: seq<Path>)
    requires !s.inner
    ensures Lists(g, c, Told(Report(g, c, s)), ps, s, s.(inner := true))
  {
    var hi := s.(inner := true);
    if Report(g, c, s).None? {
      ps := [];
      NoEvents(g, c, s, hi);
    } else {
      ps := [[s]];
      assert Gives(g, c, s, hi, [s]);
      forall p: Path | Gives(g, c, s, hi, p) ensures p in ps { assert p[0] == s && p == [s]; }
    }
  }

  /** A place, and then all that follows it in the table. */
  lemma PlaceThen(g: Graph, c: Chain, section: nat, k: nat, pos: nat, es: seq<Event>, ps: seq<Path>,
                  fs: seq<Event>, qs: seq<Path>, hi: At) returns (rs: seq<Path>)
    requires var x := Child(g, c, At(section, k, pos, true)); x.Found? ==> Lists(g, c + [x.ti], es, ps, START, END)
    requires Lists(g, c, fs, qs, At(section, k, pos + 1, false), hi) && !Before(hi, At(section, k, pos + 1, false))
    ensures Lists(g, c, Here(g, c, section, k, pos, es) + fs, rs, At(section, k, pos, false), hi)
  {
    var first := OnePlace(g, c, section, k, pos, es, ps);
    Join(g, c, Here(g, c, section, k, pos, es), first, fs, qs,
         At(section, k, pos, false), At(section, k, pos + 1, false), hi);
    rs := first + qs;
  }

  // ----- the recursion lists all events -----

  /** All events below an instance, in order. */
  lemma VisitLists(g: Graph, c: Chain) returns (ps: seq<Path>)
    requires ValidGraph(g) && g.met(Top(c))
    ensures Lists(g, c, Visit(g, c).events, ps, START, END)
    decreases |Room(c)|, 3, 0
  {
    ps := SectionLists(g, c, 0);
  }

  lemma SectionLists(g: Graph, c: Chain, s: nat) returns (ps: seq<Path>)
    requires ValidGraph(g) && g.met(Top(c)) && s <= 4
    ensures Lists(g, c, Sections(g, c, s).events, ps, At(s, 0, 0, false), END)
    decreases |Room(c)|, 2, 4 - s
  {
    if s == 4 {
      NoEvents(g, c, END, END);
      return [];
    }
    var first, w := [], Only([]);
    if s == 0 {
      first := StrongsList(g, c, 0);
      w := Strongs(g, c, 0);
    } else if s == 1 {
      first := CondsList(g, c, 0);
      w := Conds(g, c, 0);
    } else if s == 2 {
      first := PointsList(g, c, 0);
      w := Points(g, c, 0);
    } else {
      first := VirtsList(g, c, 0);
      w := Virts(g, c, 0);
    }
    var rest := SectionLists(g, c, s + 1);
    Join(g, c, w.events, first, Sections(g, c, s + 1).events, rest, At(s, 0, 0, false), At(s + 1, 0, 0, false), END);
    ps := first + rest;
    assert Sections(g, c, s).events == w.events + Sections(g, c, s + 1).events;
  }

  /** Where a field and its elements are. */
  function Section(f: Fld): nat { if f.Strong? then 0 else 1 }
  function FieldAt(f: Fld, pos: nat): At { At(Section(f), f.k, pos, false) }
  function FieldEnd(f: Fld): At { At(Section(f), f.k + 1, 0, false) }

  /** What is found at a place may be met, and is below the chain. */
  lemma ChildBelow(g: Graph, c: Chain, s: At)
    requires ValidGraph(g) && g.met(Top(c)) && Child(g, c, s).Found?
    ensures var x := Child(g, c, s).ti; g.met(x) && |Room(c + [x])| < |Room(c)|
  {
    Deeper(c, Child(g, c, s).ti);
  }

  /** What is found at a place is listed. */
  ghost predicate ListedAt(g: Graph, c: Chain, s: At, es: seq<Event>, ps: seq<Path>)
    requires ValidGraph(g)
  {
    var x := Child(g, c, s);
    x.Found? ==> g.met(x.ti) && es == Visit(g, c + [x.ti]).events && Lists(g, c + [x.ti], es, ps, START, END)
  }

  lemma ListBelow(g: Graph, c: Chain, s: At) returns (es: seq<Event>, ps: seq<Path>)
    requires ValidGraph(g) && g.met(Top(c))
    ensures ListedAt(g, c, s, es, ps)
    decreases |Room(c)|, 0, 0
  {
    es, ps := [], [];
    var x := Child(g, c, s);
    if x.Found? {
      ChildBelow(g, c, s);
      es := Visit(g, c + [x.ti]).events;
      ps := VisitLists(g, c + [x.ti]);
    }
  }

  lemma ElementsList(g: Graph, c: Chain, f: Fld, i: nat) returns (ps: seq<Path>)
    requires ValidGraph(g) && g.met(Top(c)) && Live(g, Top(c), f)
    ensures Lists(g, c, Elements(g, c, f, i).events, ps, FieldAt(f, i + 1), FieldEnd(f))
    decreases |Room(c)|, 0, if i < g.elems(Top(c), f) then g.elems(Top(c), f) - i else 0
  {
    if i >= g.elems(Top(c), f) {
      NoElements(g, c, f, i);
      return [];
    }
    var es, below := ListBelow(g, c, At(Section(f), f.k, i + 1, true));
    var rest := ElementsList(g, c, f, i + 1);
    ps := ElementThen(g, c, f, i, es, below, Elements(g, c, f, i + 1).events, rest);
    ElementAt(g, c, f, i, es, below);
  }

  lemma ElementThen(g: Graph, c: Chain, f: Fld, i: nat, es: seq<Event>, ps: seq<Path>, fs: seq<Event>, qs: seq<Path>)
      returns (rs: seq<Path>)
    requires ValidGraph(g) && ListedAt(g, c, At(Section(f), f.k, i + 1, true), es, ps)
    requires Lists(g, c, fs, qs, FieldAt(f, i + 2), FieldEnd(f))
    ensures Lists(g, c, Here(g, c, Section(f), f.k, i + 1, es) + fs, rs, FieldAt(f, i + 1), FieldEnd(f))
  {
    rs := PlaceThen(g, c, Section(f), f.k, i + 1, es, ps, fs, qs, FieldEnd(f));
  }

  lemma NoElements(g: Graph, c: Chain, f: Fld, i: nat)
    requires ValidGraph(g) && g.met(Top(c)) && i >= g.elems(Top(c), f)
    ensures Lists(g, c, Elements(g, c, f, i).events, [], FieldAt(f, i + 1), FieldEnd(f))
  {
    NoEvents(g, c, FieldAt(f, i + 1), FieldEnd(f));
  }

  lemma ElementAt(g: Graph, c: Chain, f: Fld, i: nat, es: seq<Event>, ps: seq<Path>)
    requires ValidGraph(g) && g.met(Top(c)) && Live(g, Top(c), f) && i < g.elems(Top(c), f)
    requires ListedAt(g, c, At(Section(f), f.k, i + 1, true), es, ps)
    ensures Elements(g, c, f, i).events == Here(g, c, Section(f), f.k, i + 1, es) + Elements(g, c, f, i + 1).events
  {
    var x, rest := Child(g, c, At(Section(f), f.k, i + 1, true)), Elements(g, c, f, i + 1).events;
    assert x == Follow(c, Candidate(g, Top(c), f, Cursor(g, c, f, i), i));
    Regroup(if x.Found? then [SeeType(x.ti)] else [], if x.Found? then es else [], rest);
  }

  /** A field: what is reported about it, and its elements. */
  lemma FieldLists(g: Graph, c: Chain, f: Fld, ps: seq<Path>) returns (qs: seq<Path>)
    requires ValidGraph(g) && g.met(Top(c)) && Live(g, Top(c), f)
    requires Lists(g, c, Elements(g, c, f, 0).events, ps, FieldAt(f, 1), FieldEnd(f))
    ensures Lists(g, c, Told(Report(g, c, FieldAt(f, 0))) + Elements(g, c, f, 0).events, qs, FieldAt(f, 0), FieldEnd(f))
  {
    var s := FieldAt(f, 0);
    assert Child(g, c, s.(inner := true)).Nothing?;
    qs := PlaceThen(g, c, s.section, s.k, 0, [], [], Elements(g, c, f, 0).events, ps, FieldEnd(f));
    assert Here(g, c, s.section, s.k, 0, []) == Told(Report(g, c, s));
  }

  lemma StrongsList(g: Graph, c: Chain, k: nat) returns (ps: seq<Path>)
    requires ValidGraph(g) && g.met(Top(c))
    ensures Lists(g, c, Strongs(g, c, k).events, ps, At(0, k, 0, false), At(1, 0, 0, false))
    decreases |Room(c)|, 1, if k < g.strongs(Top(c)) then g.strongs(Top(c)) - k else 0
  {
    if k >= g.strongs(Top(c)) {
      NoStrongs(g, c, k);
      return [];
    }
    var es, first := OneField(g, c, Strong(k));
    StrongAt(g, c, k, es);
    var rest := StrongsList(g, c, k + 1);
    FieldThen(g, c, Strong(k), es, first, Strongs(g, c, k + 1).events, rest);
    ps := first + rest;
  }

  /** A field, and then the fields behind it. */
  lemma FieldThen(g: Graph, c: Chain, f: Fld, es: seq<Event>, ps: seq<Path>, fs: seq<Event>, qs: seq<Path>)
    requires Lists(g, c, es, ps, FieldAt(f, 0), FieldEnd(f))
    requires Lists(g, c, fs, qs, FieldEnd(f), At(Section(f) + 1, 0, 0, false))
    ensures Lists(g, c, es + fs, ps + qs, FieldAt(f, 0), At(Section(f) + 1, 0, 0, false))
  {
    Join(g, c, es, ps, fs, qs, FieldAt(f, 0), FieldEnd(f), At(Section(f) + 1, 0, 0, false));
  }

  lemma NoStrongs(g: Graph, c: Chain, k: nat)
    requires ValidGraph(g) && g.met(Top(c)) && k >= g.strongs(Top(c))
    ensures Lists(g, c, Strongs(g, c, k).events, [], At(0, k, 0, false), At(1, 0, 0, false))
  {
    NoEvents(g, c, At(0, k, 0, false), At(1, 0, 0, false));
  }

  /** A field with all its elements, if it is scanned. */
  lemma OneField(g: Graph, c: Chain, f: Fld) returns (es: seq<Event>, ps: seq<Path>)
    requires ValidGraph(g) && g.met(Top(c))
    ensures es == FieldEvents(g, c, f) && Lists(g, c, es, ps, FieldAt(f, 0), FieldEnd(f))
    decreases |Room(c)|, 1, 0
  {
    es := FieldEvents(g, c, f);
    if Live(g, Top(c), f) {
      var elements := ElementsList(g, c, f, 0);
      ps := FieldLists(g, c, f, elements);
    } else {
      ps := AbsentLists(g, c, f);
    }
  }

  ghost function FieldEvents(g: Graph, c: Chain, f: Fld): seq<Event>
    requires ValidGraph(g) && g.met(Top(c))
  {
    Told(Report(g, c, FieldAt(f, 0))) + if Live(g, Top(c), f) then Elements(g, c, f, 0).events else []
  }

  lemma StrongAt(g: Graph, c: Chain, k: nat, es: seq<Event>)
    requires ValidGraph(g) && g.met(Top(c)) && k < g.strongs(Top(c)) && es == FieldEvents(g, c, Strong(k))
    ensures Strongs(g, c, k).events == es + Strongs(g, c, k + 1).events
  {
    var see, elements, rest := [SeeStrong(Top(c), k)], Elements(g, c, Strong(k), 0).events, Strongs(g, c, k + 1).events;
    assert see + (elements + rest) == es + rest;
  }

  lemma CondsList(g: Graph, c: Chain, k: nat) returns (ps: seq<Path>)
    requires ValidGraph(g) && g.met(Top(c))
    ensures Lists(g, c, Conds(g, c, k).events, ps, At(1, k, 0, false), At(2, 0, 0, false))
    decreases |Room(c)|, 1, if k < g.typed(Top(c)) then g.typed(Top(c)) - k else 0
  {
    if k >= g.typed(Top(c)) {
      NoConds(g, c, k);
      return [];
    }
    var es, first := OneField(g, c, Cond(k));
    CondAt(g, c, k, es);
    var rest := CondsList(g, c, k + 1);
    FieldThen(g, c, Cond(k), es, first, Conds(g, c, k + 1).events, rest);
    ps := first + rest;
  }

  lemma NoConds(g: Graph, c: Chain, k: nat)
    requires ValidGraph(g) && g.met(Top(c)) && k >= g.typed(Top(c))
    ensures Lists(g, c, Conds(g, c, k).events, [], At(1, k, 0, false), At(2, 0, 0, false))
  {
    NoEvents(g, c, At(1, k, 0, false), At(2, 0, 0, false));
  }

  lemma CondAt(g: Graph, c: Chain, k: nat, es: seq<Event>)
    requires ValidGraph(g) && g.met(Top(c)) && k < g.typed(Top(c)) && es == FieldEvents(g, c, Cond(k))
    ensures Conds(g, c, k).events == es + Conds(g, c, k + 1).events
  {
    var rest := Conds(g, c, k + 1).events;
    if Live(g, Top(c), Cond(k)) {
      var see, elements := [SeeCond(Top(c), k)], Elements(g, c, Cond(k), 0).events;
      assert see + (elements + rest) == es + rest;
    }
  }

  /** A field whose condition does not hold is reported at most. */
  lemma AbsentLists(g: Graph, c: Chain, f: Fld) returns (ps: seq<Path>)
    requires !Live(g, Top(c), f)
    ensures Lists(g, c, Told(Report(g, c, FieldAt(f, 0))) + [], ps, FieldAt(f, 0), FieldEnd(f))
  {
    NoEvents(g, c, FieldAt(f, 1), FieldEnd(f));
    assert Child(g, c, At(Section(f), f.k, 0, true)).Nothing?;
    assert Here(g, c, Section(f), f.k, 0, []) == Told(Report(g, c, FieldAt(f, 0)));
    ps := PlaceThen(g, c, Section(f), f.k, 0, [], [], [], [], FieldEnd(f));
  }

  lemma RangeLists(g: Graph, c: Chain, k: nat, i: nat) returns (ps: seq<Path>)
    requires ValidGraph(g) && g.met(Top(c)) && k < g.points(Top(c)) && HasRange(g, Top(c), k) && g.first(Top(c), k) <= i
    ensures Lists(g, c, Pointers(g, c, k, i).events, ps, At(2, k, i, false), At(2, k + 1, 0, false))
    decreases |Room(c)|, 0, if i <= g.last(Top(c), k) then g.last(Top(c), k) + 1 - i else 0
  {
    if i > g.last(Top(c), k) {
      NoPointers(g, c, k, i);
      return [];
    }
    var es, below := ListBelow(g, c, At(2, k, i, true));
    var rest := RangeLists(g, c, k, i + 1);
    ps := PlaceThen(g, c, 2, k, i, es, below, Pointers(g, c, k, i + 1).events, rest, At(2, k + 1, 0, false));
    PointerAt(g, c, k, i, es, below);
  }

  lemma NoPointers(g: Graph, c: Chain, k: nat, i: nat)
    requires ValidGraph(g) && g.met(Top(c)) && i > g.last(Top(c), k)
    ensures Lists(g, c, Pointers(g, c, k, i).events, [], At(2, k, i, false), At(2, k + 1, 0, false))
  {
    NoEvents(g, c, At(2, k, i, false), At(2, k + 1, 0, false));
  }

  lemma PointerAt(g: Graph, c: Chain, k: nat, i: nat, es: seq<Event>, ps: seq<Path>)
    requires ValidGraph(g) && g.met(Top(c)) && k < g.points(Top(c)) && HasRange(g, Top(c), k)
    requires g.first(Top(c), k) <= i <= g.last(Top(c), k) && ListedAt(g, c, At(2, k, i, true), es, ps)
    ensures Pointers(g, c, k, i).events == Here(g, c, 2, k, i, es) + Pointers(g, c, k, i + 1).events
  {
    var x, rest := Child(g, c, At(2, k, i, true)), Pointers(g, c, k, i + 1).events;
    if x.Found? { Regroup([SeePoint(Top(c), k, i), SeeType(x.ti)], es, rest); }
    Pair(SeePoint(Top(c), k, i), x, es);
  }

  lemma PointsList(g: Graph, c: Chain, k: nat) returns (ps: seq<Path>)
    requires ValidGraph(g) && g.met(Top(c))
    ensures Lists(g, c, Points(g, c, k).events, ps, At(2, k, 0, false), At(3, 0, 0, false))
    decreases |Room(c)|, 1, if k < g.points(Top(c)) then g.points(Top(c)) - k else 0
  {
    if k >= g.points(Top(c)) {
      NoPoints(g, c, k);
      return [];
    }
    var es, first := [], [];
    if HasRange(g, Top(c), k) {
      var min := g.first(Top(c), k);
      es := Pointers(g, c, k, min).events;
      first := RangeLists(g, c, k, min);
      FromFirst(g, c, k, es, first);
    } else {
      NoRange(g, c, k);
    }
    var rest := PointsList(g, c, k + 1);
    PointsAt(g, c, k, es);
    Join(g, c, es, first, Points(g, c, k + 1).events, rest,
         At(2, k, 0, false), At(2, k + 1, 0, false), At(3, 0, 0, false));
    ps := first + rest;
  }

  lemma NoPoints(g: Graph, c: Chain, k: nat)
    requires ValidGraph(g) && g.met(Top(c)) && k >= g.points(Top(c))
    ensures Lists(g, c, Points(g, c, k).events, [], At(2, k, 0, false), At(3, 0, 0, false))
  {
    NoEvents(g, c, At(2, k, 0, false), At(3, 0, 0, false));
  }

  lemma NoRange(g: Graph, c: Chain, k: nat)
    requires !HasRange(g, Top(c), k)
    ensures Lists(g, c, [], [], At(2, k, 0, false), At(2, k + 1, 0, false))
  {
    NoEvents(g, c, At(2, k, 0, false), At(2, k + 1, 0, false));
  }

  lemma FromFirst(g: Graph, c: Chain, k: nat, es: seq<Event>, ps: seq<Path>)
    requires Lists(g, c, es, ps, At(2, k, g.first(Top(c), k), false), At(2, k + 1, 0, false))
    ensures Lists(g, c, es, ps, At(2, k, 0, false), At(2, k + 1, 0, false))
  {
    Widen(g, c, es, ps, At(2, k, 0, false), At(2, k, g.first(Top(c), k), false), At(2, k + 1, 0, false));
  }

  lemma PointsAt(g: Graph, c: Chain, k: nat, es: seq<Event>)
    requires ValidGraph(g) && g.met(Top(c)) && k < g.points(Top(c))
    requires es == if HasRange(g, Top(c), k) then Pointers(g, c, k, g.first(Top(c), k)).events else []
    ensures Points(g, c, k).events == es + Points(g, c, k + 1).events
  {
  }

  lemma TriedReached(g: Graph, ti: Ti, k: nat, i: nat)
    requires Tried(g, ti, k, i)
    ensures VirtReached(g, ti, k, i)
  {
    if i > 0 {
      assert !VirtAt(g, ti, k, 0).Stop?;
      forall j: nat | 1 <= j < i ensures Accepted(g.sizes(ti, k), g.bits(ti, k), j) {
        assert !VirtAt(g, ti, k, j).Stop?;
      }
    }
  }

  lemma VirtualsList(g: Graph, c: Chain, k: nat, i: nat) returns (ps: seq<Path>)
    requires ValidGraph(g) && g.met(Top(c)) && k < g.virts(Top(c)) && Tried(g, Top(c), k, i)
    ensures VirtReached(g, Top(c), k, i)
    ensures Lists(g, c, Virtuals(g, c, k, i).events, ps, At(3, k, i, false), At(3, k + 1, 0, false))
    decreases |Room(c)|, 0, if i < U32 then U32 - i else 0
  {
    var fs := RestAfter(g, c, k, i);
    var rest := [];
    if VirtAt(g, Top(c), k, i).Stop? {
      NoVirtuals(g, c, k, i);
    } else {
      rest := VirtualsList(g, c, k, i + 1);
    }
    var es, below := ListBelow(g, c, At(3, k, i, true));
    ps := PlaceThen(g, c, 3, k, i, es, below, fs, rest, At(3, k + 1, 0, false));
    VirtualAt(g, c, k, i, es, below, fs);
  }

  /** The events behind element i. */
  lemma RestAfter(g: Graph, c: Chain, k: nat, i: nat) returns (fs: seq<Event>)
    requires ValidGraph(g) && g.met(Top(c)) && Tried(g, Top(c), k, i)
    ensures i < U32 && VirtReached(g, Top(c), k, i)
    ensures if VirtAt(g, Top(c), k, i).Stop? then fs == []
            else Tried(g, Top(c), k, i + 1) && VirtReached(g, Top(c), k, i + 1) &&
                 fs == Virtuals(g, c, k, i + 1).events
  {
    TriedReached(g, Top(c), k, i);
    VirtShort(g, Top(c), k, i);
    fs := [];
    if !VirtAt(g, Top(c), k, i).Stop? {
      TriedReached(g, Top(c), k, i + 1);
      fs := Virtuals(g, c, k, i + 1).events;
    }
  }

  lemma NoVirtuals(g: Graph, c: Chain, k: nat, i: nat)
    requires VirtAt(g, Top(c), k, i).Stop?
    ensures Lists(g, c, [], [], At(3, k, i + 1, false), At(3, k + 1, 0, false))
  {
    forall j: nat | j > i ensures !Tried(g, Top(c), k, j) { assert VirtAt(g, Top(c), k, i).Stop?; }
    NoEvents(g, c, At(3, k, i + 1, false), At(3, k + 1, 0, false));
  }

  lemma VirtualAt(g: Graph, c: Chain, k: nat, i: nat, es: seq<Event>, ps: seq<Path>, fs: seq<Event>)
    requires ValidGraph(g) && g.met(Top(c)) && k < g.virts(Top(c)) && Tried(g, Top(c), k, i)
    requires VirtReached(g, Top(c), k, i) && ListedAt(g, c, At(3, k, i, true), es, ps)
    requires if VirtAt(g, Top(c), k, i).Stop? then fs == []
             else VirtReached(g, Top(c), k, i + 1) && fs == Virtuals(g, c, k, i + 1).events
    ensures Virtuals(g, c, k, i).events == Here(g, c, 3, k, i, es) + fs
  {
    var x, see := FollowVirt(c, VirtAt(g, Top(c), k, i)), SeeVirt(Top(c), k, i);
    if x.VFound? { Regroup([see, SeeType(x.ti)], es, fs); }
    Pair(see, Child(g, c, At(3, k, i, true)), es);
  }

  lemma VirtsList(g: Graph, c: Chain, k: nat) returns (ps: seq<Path>)
    requires ValidGraph(g) && g.met(Top(c))
    ensures Lists(g, c, Virts(g, c, k).events, ps, At(3, k, 0, false), END)
    decreases |Room(c)|, 1, if k < g.virts(Top(c)) then g.virts(Top(c)) - k else 0
  {
    if k >= g.virts(Top(c)) {
      NoEvents(g, c, At(3, k, 0, false), END);
      return [];
    }
    var first := VirtualsList(g, c, k, 0);
    var es := Virtuals(g, c, k, 0).events;
    var rest := VirtsList(g, c, k + 1);
    var fs := Virts(g, c, k + 1).events;
    Join(g, c, es, first, fs, rest, At(3, k, 0, false), At(3, k + 1, 0, false), END);
    ps := first + rest;
    assert Virts(g, c, k).events == es + fs;
  }

  // ----- what a listing determines -----

  lemma {:induction false} OneWay(p: Path, q: Path)
    requires PathBefore(p, q)
    ensures !PathBefore(q, p) && p != q
    decreases |p|
  {
    if p != [] && p[0] == q[0] { OneWay(p[1..], q[1..]); }
  }

  lemma {:induction false} SortedSame(ps: seq<Path>, qs: seq<Path>)
    requires Sorted(ps) && Sorted(qs) && forall p: Path :: p in ps <==> p in qs
    ensures ps == qs
  {
    EmptyToo(ps, qs);
    EmptyToo(qs, ps);
    if ps != [] {
      assert ps[0] in qs && qs[0] in ps;
      var i :| 0 <= i < |qs| && qs[i] == ps[0];
      var j :| 0 <= j < |ps| && ps[j] == qs[0];
      if i > 0 && j > 0 { OneWay(ps[0], ps[j]); }
      SameTail(ps, qs);
      SortedSame(ps[1..], qs[1..]);
      assert ps == [ps[0]] + ps[1..] && qs == [qs[0]] + qs[1..];
    }
  }

  lemma EmptyToo(ps: seq<Path>, qs: seq<Path>)
    requires forall p: Path :: p in ps <==> p in qs
    ensures ps == [] ==> qs == []
  {
    if |qs| > 0 { assert qs[0] in ps; }
  }

  lemma SameTail(ps: seq<Path>, qs: seq<Path>)
    requires Sorted(ps) && Sorted(qs) && ps != [] && qs != [] && ps[0] == qs[0]
    requires forall p: Path :: p in ps <==> p in qs
    ensures Sorted(ps[1..]) && Sorted(qs[1..]) && forall p: Path :: p in ps[1..] <==> p in qs[1..]
  {
    forall p: Path ensures p in ps[1..] <==> p in qs[1..] {
      if p in ps[1..] { TailOf(ps, p); assert p in qs; }
      if p in qs[1..] { TailOf(qs, p); assert p in ps; }
    }
  }

  lemma TailOf(ps: seq<Path>, p: Path)
    requires Sorted(ps) && ps != [] && p in ps[1..]
    ensures p in ps && p != ps[0]
  {
    var n :| 0 <= n < |ps[1..]| && ps[1..][n] == p;
    assert ps[n + 1] == p;
    OneWay(ps[0], ps[n + 1]);
  }

  /** The tables determine the events and their order. */
  lemma ListedOnce(g: Graph, c: Chain, es: seq<Event>, ps: seq<Path>, fs: seq<Event>, qs: seq<Path>, lo: At, hi: At)
    requires Lists(g, c, es, ps, lo, hi) && Lists(g, c, fs, qs, lo, hi)
    ensures es == fs
  {
    forall p: Path ensures p in ps <==> p in qs {
      if p in ps { assert Gives(g, c, lo, hi, p); }
      if p in qs { assert Gives(g, c, lo, hi, p); }
    }
    SortedSame(ps, qs);
    forall n | 0 <= n < |es| ensures es[n] == fs[n] { assert EventAt(g, c, ps[n]) == Some(es[n]); }
  }

  /** A line of descent: each instance is found at some place of the one before, and is not at
      the place of an ancestor. */
  ghost predicate Line(g: Graph, c: Chain, xs: seq<Ti>)
    decreases |xs|
  {
    xs == [] || ((exists s: At :: Child(g, c, s) == Found(xs[0])) && Line(g, c + [xs[0]], xs[1..]))
  }

  ghost predicate Descends(g: Graph, c: Chain, x: Ti) {
    exists xs: seq<Ti> :: xs != [] && xs[|xs| - 1] == x && Line(g, c, xs)
  }

  lemma {:induction false} LineOfPath(g: Graph, c: Chain, p: Path, x: Ti) returns (xs: seq<Ti>)
    requires EventAt(g, c, p) == Some(SeeType(x))
    ensures xs != [] && xs[|xs| - 1] == x && Line(g, c, xs)
    decreases |p|
  {
    var y := Child(g, c, p[0]).ti;
    xs := [y];
    if |p| > 1 {
      var below := LineOfPath(g, c + [y], p[1..], x);
      xs := [y] + below;
      assert xs[1..] == below;
    } else {
      assert xs[1..] == [] && Line(g, c + [y], xs[1..]);
    }
    assert Child(g, c, p[0]) == Found(xs[0]);
  }

  lemma {:induction false} PathOfLine(g: Graph, c: Chain, xs: seq<Ti>) returns (p: Path)
    requires xs != [] && Line(g, c, xs)
    ensures Gives(g, c, START, END, p) && EventAt(g, c, p) == Some(SeeType(xs[|xs| - 1]))
    decreases |xs|
  {
    var s: At :| Child(g, c, s) == Found(xs[0]);
    p := [s];
    if |xs| > 1 {
      var below := PathOfLine(g, c + [xs[0]], xs[1..]);
      p := [s] + below;
      assert p[1..] == below;
    }
  }

  /** An instance is visited exactly when it descends from the root. */
  lemma SeenExactly(g: Graph, c: Chain, es: seq<Event>, ps: seq<Path>, x: Ti)
    requires Lists(g, c, es, ps, START, END)
    ensures SeeType(x) in es <==> Descends(g, c, x)
  {
    if SeeType(x) in es {
      var n :| 0 <= n < |es| && es[n] == SeeType(x);
      var xs := LineOfPath(g, c, ps[n], x);
    }
    if Descends(g, c, x) {
      var xs: seq<Ti> :| xs != [] && xs[|xs| - 1] == x && Line(g, c, xs);
      var p := PathOfLine(g, c, xs);
      var n :| 0 <= n < |ps| && ps[n] == p;
      assert es[n] == SeeType(x);
    }
  }
}
