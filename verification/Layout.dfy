/** The layout compiler: declarations, nested conditionals and set/skip/align statements
    become offset thunks that call each other by name. */
module Layout {
  import opened Arith

  const M: nat := 0x1_0000_0000_0000_0000  // 64-bit arithmetic

  /** What a thunk may look at: the disk, its parameters and the offset it was given. */
  datatype Env = Env(disk: seq<nat>, params: seq<nat>, base: nat)

  // ----- the source language -----

  datatype Cond = Test(holds: Env -> bool) | Not(c: Cond)

  /** The number of bits of a field. Element counts may mention from_base_bits(). */
  datatype Shape =
    | Single(size: Env -> nat)
    | Uniform(size: Env -> nat, elems: (Env, nat) -> nat)            // constant or fixed element size
    | Variable(bits: (Env, nat, nat) -> nat, elems: (Env, nat) -> nat)  // measured by the runtime

  datatype Else = NoElse | Else(stmt: Stmt)

  datatype Stmt =
    | Empty
    | Seq(first: Stmt, rest: Stmt)
    | Decl(name: string, shape: Shape)
    | If(cond: Cond, yes: Stmt, no: Else)
    | Set(bytes: bool, arg: (Env, nat) -> nat)
    | Skip(bytes: bool, arg: (Env, nat) -> nat)
    | Align(bytes: bool, arg: (Env, nat) -> nat)

  predicate Holds(c: Cond, env: Env) { match c case Test(f) => f(env) case Not(d) => !Holds(d, env) }

  predicate AllHold(cs: seq<Cond>, env: Env) { forall k :: 0 <= k < |cs| ==> Holds(cs[k], env) }

  /** Set, skip and align are not allowed inside a conditional. */
  predicate Flat(s: Stmt) {
    match s
    case Seq(a, b) => Flat(a) && Flat(b)
    case If(_, a, e) => Flat(a) && (e.Else? ==> Flat(e.stmt))
    case Set(_, _) => false
    case Skip(_, _) => false
    case Align(_, _) => false
    case _ => true
  }

  predicate Wellformed(s: Stmt) {
    match s
    case Seq(a, b) => Wellformed(a) && Wellformed(b)
    case If(_, a, e) => Flat(a) && (e.Else? ==> Flat(e.stmt))
    case _ => true
  }

  lemma {:induction false} FlatWellformed(s: Stmt)
    requires Flat(s)
    ensures Wellformed(s)
  {
    match s
    case Seq(a, b) => FlatWellformed(a); FlatWellformed(b);
    case _ =>
  }

  function Names(s: Stmt): set<string> {
    match s
    case Seq(a, b) => Names(a) + Names(b)
    case Decl(n, _) => {n}
    case If(_, a, NoElse) => Names(a)
    case If(_, a, Else(b)) => Names(a) + Names(b)
    case _ => {}
  }

  /** No field name is declared twice. */
  predicate Distinct(s: Stmt) {
    match s
    case Seq(a, b) => Distinct(a) && Distinct(b) && Names(a) !! Names(b)
    case If(_, a, NoElse) => Distinct(a)
    case If(_, a, Else(b)) => Distinct(a) && Distinct(b) && Names(a) !! Names(b)
    case _ => true
  }

  // ----- a direct walk with a cursor -----

  function Scaled(bytes: bool, v: nat): nat { if bytes then v % M * 8 % M else v % M }

  function FromBase(env: Env, c: nat): nat { (c - env.base % M) % M }

  function RoundUp(x: nat, a: nat): nat requires a > 0 { (x + a - 1) / a * a }

  /** The bits of a field at cursor c; from_base_bits() is the distance from the base. */
  function Bits(env: Env, sh: Shape, c: nat): nat { ShapeBits(env, sh, c, FromBase(env, c)) }

  /** With from as the value of from_base_bits(). */
  function ShapeBits(env: Env, sh: Shape, c: nat, from: nat): nat {
    match sh
    case Single(size) => size(env) % M
    case Uniform(size, elems) => (size(env) % M) * (elems(env, from) % M) % M
    case Variable(bits, elems) => bits(env, c, elems(env, from) % M) % M
  }

  /** The cursor after a statement. */
  function Walk(env: Env, s: Stmt, c: nat): nat {
    match s
    case Empty => c
    case Seq(a, b) => Walk(env, b, Walk(env, a, c))
    case Decl(_, sh) => (c + Bits(env, sh, c)) % M
    case If(t, a, e) => if Holds(t, env) then Walk(env, a, c) else if e.NoElse? then c else Walk(env, e.stmt, c)
    case Set(bytes, arg) => (env.base % M + Scaled(bytes, arg(env, FromBase(env, c)))) % M
    case Skip(bytes, arg) => (c + Scaled(bytes, arg(env, FromBase(env, c)))) % M
    case Align(bytes, arg) =>
      var from, a := FromBase(env, c), Scaled(bytes, arg(env, FromBase(env, c)));
      if a == 0 then c else (c + (RoundUp(from, a) - from)) % M
  }

  /** The fields that the walk meets, with the cursor at each. */
  function Where(env: Env, s: Stmt, c: nat): map<string, nat> {
    match s
    case Seq(a, b) => Where(env, a, c) + Where(env, b, Walk(env, a, c))
    case Decl(n, _) => map[n := c]
    case If(t, a, e) => if Holds(t, env) then Where(env, a, c) else if e.NoElse? then map[] else Where(env, e.stmt, c)
    case _ => map[]
  }

  /** Alignments met by the walk divide the 64-bit range: they are powers of two. */
  predicate AlignsFit(env: Env, s: Stmt, c: nat) {
    match s
    case Seq(a, b) => AlignsFit(env, a, c) && AlignsFit(env, b, Walk(env, a, c))
    case If(t, a, e) =>
      if Holds(t, env) then AlignsFit(env, a, c) else e.Else? ==> AlignsFit(env, e.stmt, c)
    case Align(bytes, arg) => var a := Scaled(bytes, arg(env, FromBase(env, c))); a > 0 && M % a == 0
    case _ => true
  }

  /** The element count of the field is the same at the cursor and at its distance from the
      base, because it does not mention from_base_bits() or by chance. */
  predicate CountAgrees(env: Env, sh: Shape, c: nat) {
    sh.Single? || sh.elems(env, c) % M == sh.elems(env, FromBase(env, c)) % M
  }

  /** What the compiler gets right: alignments met by the walk are powers of two, and element
      counts met by the walk agree. */
  predicate Regular(env: Env, s: Stmt, c: nat) {
    match s
    case Seq(a, b) => Regular(env, a, c) && Regular(env, b, Walk(env, a, c))
    case If(t, a, e) =>
      if Holds(t, env) then Regular(env, a, c) else e.Else? ==> Regular(env, e.stmt, c)
    case Decl(_, sh) => CountAgrees(env, sh, c)
    case Align(_, _) => AlignsFit(env, s, c)
    case _ => true
  }

  // ----- the target: thunks -----

  /** __base, a declared field, or a made-up field such as __rebase_T_3. */
  datatype Name = Base | User(s: string) | Made(k: nat)

  datatype Expr =
    | ArgOffset
    | Number(n: nat)
    | Source(f: (Env, nat) -> nat, from: Expr)  // a source expression, from_base_bits() replaced
    | ArrayBits(g: (Env, nat, nat) -> nat, off: Expr, elems: Expr)
    | Add(a: Expr, b: Expr)
    | Sub(a: Expr, b: Expr)
    | Mul(a: Expr, b: Expr)
    | Mod(a: Expr, b: Expr)
    | Call(name: Name)
    | Fail

  datatype Thunk = Plain(e: Expr) | Choice(conds: seq<Cond>, yes: Expr, no: Expr)

  type Table = map<Name, Thunk>

  datatype Out = Val(v: nat) | Failed | Stuck

  /** Both operands have values. */
  predicate Two(a: Out, b: Out) { a.Val? && b.Val? }
  function First(a: Out, b: Out): Out { if a.Val? then b else a }

  /** Call by need; calls are resolved by name in the whole table. */
  function Eval(t: Table, env: Env, e: Expr, fuel: nat): Out
    decreases fuel, e
  {
    match e
    case ArgOffset => Val(env.base % M)
    case Number(n) => Val(n % M)
    case Source(f, from) =>
      var x := Eval(t, env, from, fuel);
      if x.Val? then Val(f(env, x.v) % M) else x
    case ArrayBits(g, off, elems) =>
      var x, y := Eval(t, env, off, fuel), Eval(t, env, elems, fuel);
      if Two(x, y) then Val(g(env, x.v, y.v) % M) else First(x, y)
    case Add(a, b) =>
      var x, y := Eval(t, env, a, fuel), Eval(t, env, b, fuel);
      if Two(x, y) then Val((x.v + y.v) % M) else First(x, y)
    case Sub(a, b) =>
      var x, y := Eval(t, env, a, fuel), Eval(t, env, b, fuel);
      if Two(x, y) then Val((x.v - y.v) % M) else First(x, y)
    case Mul(a, b) =>
      var x, y := Eval(t, env, a, fuel), Eval(t, env, b, fuel);
      if Two(x, y) then Val(x.v * y.v % M) else First(x, y)
    case Mod(a, b) =>
      var x, y := Eval(t, env, a, fuel), Eval(t, env, b, fuel);
      if Two(x, y) && y.v != 0 then Val(x.v % y.v) else if Two(x, y) then Stuck else First(x, y)
    case Call(n) =>
      if fuel == 0 || n !in t then Stuck
      else match t[n] {
        case Plain(x) => Eval(t, env, x, fuel - 1)
        case Choice(cs, x, y) => if AllHold(cs, env) then Eval(t, env, x, fuel - 1) else Eval(t, env, y, fuel - 1)
      }
    case Fail => Failed
  }

  /** The __ispresent thunk; a field without one is always present. */
  predicate Present(t: Table, env: Env, n: Name) {
    n in t && (t[n].Choice? ==> AllHold(t[n].conds, env))
  }

  // ----- the compiler -----

  /** The last field: its offset thunk and its number of bits. */
  datatype Field = Field(name: Name, bits: Expr)

  /** copyNextOffset */
  function Next(f: Field): Expr { Add(Call(f.name), f.bits) }

  datatype State = State(table: Table, last: Field, conds: seq<Cond>, count: nat)

  /** The first registration of a name wins. */
  function Register(t: Table, n: Name, th: Thunk): Table { if n in t then t else t[n := th] }

  function ScaledExpr(bytes: bool, e: Expr): Expr { if bytes then Mul(e, Number(8)) else e }

  /** copyNumBits */
  function NumBits(sh: Shape, self: Name, cur: Expr): Expr {
    match sh
    case Single(size) => Source((env: Env, _: nat) => size(env), Number(0))
    case Uniform(size, elems) => Mul(Source((env: Env, _: nat) => size(env), Number(0)), Source(elems, cur))
    case Variable(bits, elems) => ArrayBits(bits, Call(self), Source(elems, cur))
  }

  function ArgExpr(st: State, bytes: bool, arg: (Env, nat) -> nat): Expr {
    ScaledExpr(bytes, Source(arg, Sub(Next(st.last), ArgOffset)))
  }

  /** A field that only moves the cursor. */
  function Invisible(st: State, off: Thunk, bits: Expr): State {
    State(Register(st.table, Made(st.count), off), Field(Made(st.count), bits), st.conds, st.count + 1)
  }

  function Declared(st: State, n: string, sh: Shape): State {
    var cur := Next(st.last);
    var off := if st.conds == [] then Plain(cur) else Choice(st.conds, cur, Fail);
    State(Register(st.table, User(n), off), Field(User(n), NumBits(sh, User(n), cur)), st.conds, st.count + 1)
  }

  function Under(st: State, c: Cond): State { st.(conds := st.conds + [c]) }

  /** The state in which the false branch starts. */
  function Otherwise(st: State, st1: State, c: Cond): State {
    State(st1.table, st.last, st.conds + [Not(c)], st1.count)
  }

  /** rebaseByCond */
  function Rebased(st: State, c: Cond, table: Table, count: nat, yes: Expr, no: Expr): State {
    Invisible(State(table, st.last, st.conds, count), Choice(st.conds + [c], yes, no), Number(0))
  }

  function Compile(st: State, s: Stmt): State
    decreases s
  {
    match s
    case Empty => st
    case Seq(a, b) => Compile(Compile(st, a), b)
    case Decl(n, sh) => Declared(st, n, sh)
    case If(c, a, NoElse) =>
      var st1 := Compile(Under(st, c), a);
      Rebased(st, c, st1.table, st1.count, Next(st1.last), Next(st.last))
    case If(c, a, Else(b)) =>
      var st1 := Compile(Under(st, c), a);
      var st2 := Compile(Otherwise(st, st1, c), b);
      Rebased(st, c, st2.table, st2.count, Next(st1.last), Next(st2.last))
    case Set(bytes, arg) => Invisible(st, Plain(Add(ArgOffset, ArgExpr(st, bytes, arg))), Number(0))
    case Skip(bytes, arg) => Invisible(st, Plain(Next(st.last)), ArgExpr(st, bytes, arg))
    case Align(bytes, arg) =>
      var a := ArgExpr(st, bytes, arg);
      Invisible(st, Plain(Next(st.last)), Mod(Sub(a, Sub(Next(st.last), ArgOffset)), a))
  }

  /** getSymTab starts with the field __base. */
  function Init(): State { State(map[Base := Plain(ArgOffset)], Field(Base, Mul(Number(0), Number(0))), [], 0) }

  function Compiled(s: Stmt): State { Compile(Init(), s) }

  function SizeExpr(st: State): Expr { Sub(Next(st.last), ArgOffset) }

  /** The visitor, which works by updating its fields. */
  class Builder {
    var table: Table
    var last: Field
    var conds: seq<Cond>
    var count: nat

    ghost function Now(): State reads this { State(table, last, conds, count) }

    constructor ()
      ensures Now() == Init()
    {
      table, last, conds, count := map[Base := Plain(ArgOffset)], Field(Base, Mul(Number(0), Number(0))), [], 0;
    }

    method AddInvisible(off: Thunk, bits: Expr)
      modifies this
      ensures Now() == Invisible(old(Now()), off, bits)
    {
      table := Register(table, Made(count), off);
      last := Field(Made(count), bits);
      count := count + 1;
    }

    method AddField(n: string, sh: Shape)
      modifies this
      ensures Now() == Declared(old(Now()), n, sh)
    {
      var cur := Next(last);
      var off := if conds == [] then Plain(cur) else Choice(conds, cur, Fail);
      last := Field(User(n), NumBits(sh, User(n), cur));
      table := Register(table, User(n), off);
      count := count + 1;
    }

    method VisitCond(c: Cond, a: Stmt, e: Else)
      requires Flat(a) && (e.Else? ==> Flat(e.stmt))
      modifies this
      ensures Now() == Compile(old(Now()), If(c, a, e)) && conds == old(conds)
      decreases If(c, a, e), 0
    {
      var initialOff, initialTf, outer := Next(last), last, conds;
      conds := conds + [c];
      FlatWellformed(a);
      Visit(a);
      conds := outer;
      var lastTrue := last;
      var nextFalse := initialOff;
      if e.Else? {
        last := initialTf;
        conds := conds + [Not(c)];
        FlatWellformed(e.stmt);
        Visit(e.stmt);
        conds := outer;
        nextFalse := Next(last);
      }
      AddInvisible(Choice(conds + [c], Next(lastTrue), nextFalse), Number(0));
    }

    method Visit(s: Stmt)
      requires Wellformed(s) && (conds != [] ==> Flat(s))
      modifies this
      ensures Now() == Compile(old(Now()), s) && conds == old(conds)
      decreases s, 1
    {
      match s
      case Empty =>
      case Seq(a, b) => Visit(a); Visit(b);
      case Decl(n, sh) => AddField(n, sh);
      case If(c, a, e) => VisitCond(c, a, e);
      case Set(bytes, arg) =>
        var v := ScaledExpr(bytes, Source(arg, Sub(Next(last), ArgOffset)));
        AddInvisible(Plain(Add(ArgOffset, v)), Number(0));
      case Skip(bytes, arg) =>
        var v := ScaledExpr(bytes, Source(arg, Sub(Next(last), ArgOffset)));
        AddInvisible(Plain(Next(last)), v);
      case Align(bytes, arg) =>
        var v := ScaledExpr(bytes, Source(arg, Sub(Next(last), ArgOffset)));
        AddInvisible(Plain(Next(last)), Mod(Sub(v, Sub(Next(last), ArgOffset)), v));
    }
  }

  // ----- names -----

  ghost predicate Covers(t: Table, m: Table) { forall n :: n in m ==> n in t && t[n] == m[n] }

  /** The names that compiling s will register are new. */
  ghost predicate Fresh(st: State, s: Stmt) {
    && Distinct(s)
    && (forall n :: n in Names(s) ==> User(n) !in st.table)
    && (forall k :: st.count <= k ==> Made(k) !in st.table)
  }

  ghost predicate Extends(st: State, s: Stmt, st': State) {
    && Covers(st'.table, st.table) && st.count <= st'.count && |st.table| <= |st'.table|
    && (forall n :: User(n) in st'.table ==> User(n) in st.table || n in Names(s))
    && (forall k :: st'.count <= k ==> Made(k) !in st'.table)
    && st'.conds == st.conds
  }

  /** field_count gives every made-up field a name of its own. */
  lemma {:induction false} CompileExtends(st: State, s: Stmt)
    requires Fresh(st, s)
    ensures Extends(st, s, Compile(st, s))
    decreases s
  {
    match s
    case Seq(a, b) =>
      CompileExtends(st, a);
      CompileExtends(Compile(st, a), b);
    case If(c, a, e) => ExtendsIf(st, c, a, e);
    case _ =>
  }

  lemma {:induction false} ExtendsIf(st: State, c: Cond, a: Stmt, e: Else)
    requires Fresh(st, If(c, a, e))
    ensures Extends(st, If(c, a, e), Compile(st, If(c, a, e)))
    decreases If(c, a, e), 0
  {
    var st1 := Compile(Under(st, c), a);
    CompileExtends(Under(st, c), a);
    if e.Else? {
      var st2 := Compile(Otherwise(st, st1, c), e.stmt);
      CompileExtends(Otherwise(st, st1, c), e.stmt);
      CoversTrans(st2.table, st1.table, st.table);
      RebaseExtends(st, If(c, a, e), State(st2.table, st.last, st.conds, st2.count),
          Choice(st.conds + [c], Next(st1.last), Next(st2.last)));
    } else {
      RebaseExtends(st, If(c, a, e), State(st1.table, st.last, st.conds, st1.count),
          Choice(st.conds + [c], Next(st1.last), Next(st.last)));
    }
  }

  lemma RebaseExtends(st: State, s: Stmt, st': State, th: Thunk)
    requires Extends(st, s, st')
    ensures Extends(st, s, Invisible(st', th, Number(0)))
  {
  }

  // ----- values -----

  /** With enough fuel the expression has value v. */
  ghost predicate Gives(t: Table, env: Env, e: Expr, bound: nat, v: nat) {
    forall fuel: nat :: fuel >= bound ==> Eval(t, env, e, fuel) == Val(v)
  }

  ghost predicate Fails(t: Table, env: Env, e: Expr) {
    forall fuel: nat :: fuel >= 1 ==> Eval(t, env, e, fuel) == Failed
  }

  lemma Chosen(t: Table, env: Env, n: Name, e: Expr, bound: nat, v: nat)
    requires n in t && Gives(t, env, e, bound, v)
    requires t[n] == Plain(e) || (t[n].Choice? && e == if AllHold(t[n].conds, env) then t[n].yes else t[n].no)
    ensures Gives(t, env, Call(n), bound + 1, v)
  {
    forall fuel: nat | fuel >= bound + 1 ensures Eval(t, env, Call(n), fuel) == Val(v) {
      assert Eval(t, env, e, fuel - 1) == Val(v);
    }
  }

  lemma Sum(t: Table, env: Env, a: Expr, b: Expr, bound: nat, x: nat, y: nat)
    requires Gives(t, env, a, bound, x) && Gives(t, env, b, bound, y)
    ensures Gives(t, env, Add(a, b), bound, (x + y) % M)
    ensures Gives(t, env, Sub(a, b), bound, (x - y) % M)
    ensures Gives(t, env, Mul(a, b), bound, x * y % M)
    ensures y != 0 ==> Gives(t, env, Mod(a, b), bound, x % y)
  {
  }

  lemma Sourced(t: Table, env: Env, f: (Env, nat) -> nat, e: Expr, bound: nat, x: nat)
    requires Gives(t, env, e, bound, x)
    ensures Gives(t, env, Source(f, e), bound, f(env, x) % M)
  {
  }

  /** The number of bits of a declared field: the compiler replaces from_base_bits() in an
      element count by the cursor itself. */
  lemma BitsGiven(t: Table, env: Env, sh: Shape, self: Name, cur: Expr, bound: nat, c: nat)
    requires Gives(t, env, cur, bound, c) && Gives(t, env, Call(self), bound, c)
    ensures Gives(t, env, NumBits(sh, self, cur), bound, ShapeBits(env, sh, c, c))
  {
    match sh
    case Single(size) =>
      Sourced(t, env, (env: Env, _: nat) => size(env), Number(0), bound, 0);
    case Uniform(size, elems) =>
      var f := (env: Env, _: nat) => size(env);
      Sourced(t, env, f, Number(0), bound, 0);
      Sourced(t, env, elems, cur, bound, c);
      Sum(t, env, Source(f, Number(0)), Source(elems, cur), bound, size(env) % M, elems(env, c) % M);
    case Variable(bits, elems) =>
      Sourced(t, env, elems, cur, bound, c);
  }

  lemma DeclGives(t: Table, env: Env, st: State, n: string, sh: Shape, c: nat)
    requires Covers(t, Declared(st, n, sh).table) && User(n) !in st.table && AllHold(st.conds, env)
    requires Gives(t, env, Next(st.last), |st.table|, c)
    ensures Gives(t, env, Call(User(n)), |st.table| + 1, c) && Present(t, env, User(n))
    ensures Gives(t, env, Next(Declared(st, n, sh).last), |st.table| + 1, (c + ShapeBits(env, sh, c, c)) % M)
  {
    var st' := Declared(st, n, sh);
    assert User(n) in st'.table;
    Chosen(t, env, User(n), Next(st.last), |st.table|, c);
    BitsGiven(t, env, sh, User(n), Next(st.last), |st.table| + 1, c);
    Sum(t, env, Call(User(n)), st'.last.bits, |st.table| + 1, c, ShapeBits(env, sh, c, c));
  }

  /** A declared field whose conditions hold: its thunk gives the cursor, and the next one the
      cursor behind its bits. */
  lemma DeclCorrect(t: Table, env: Env, st: State, n: string, sh: Shape, c: nat)
    requires Covers(t, Declared(st, n, sh).table) && User(n) !in st.table && AllHold(st.conds, env)
    requires Gives(t, env, Next(st.last), |st.table|, c) && CountAgrees(env, sh, c)
    ensures Gives(t, env, Call(User(n)), |st.table| + 1, c) && Present(t, env, User(n))
    ensures Gives(t, env, Next(Declared(st, n, sh).last), |st.table| + 1, (c + Bits(env, sh, c)) % M)
  {
    DeclGives(t, env, st, n, sh, c);
    assert ShapeBits(env, sh, c, c) == Bits(env, sh, c);
  }

  /** A made-up field moves the cursor to the end of its bits. */
  lemma InvisibleCorrect(t: Table, env: Env, st: State, off: Thunk, e: Expr, bits: Expr, v: nat, w: nat)
    requires Covers(t, Invisible(st, off, bits).table) && Made(st.count) !in st.table
    requires off == Plain(e) || (off.Choice? && e == if AllHold(off.conds, env) then off.yes else off.no)
    requires Gives(t, env, e, |st.table|, v) && Gives(t, env, bits, |st.table|, w)
    ensures Gives(t, env, Next(Invisible(st, off, bits).last), |st.table| + 1, (v + w) % M)
    ensures |Invisible(st, off, bits).table| == |st.table| + 1
  {
    var st' := Invisible(st, off, bits);
    assert Made(st.count) in st'.table;
    Chosen(t, env, Made(st.count), e, |st.table|, v);
    Sum(t, env, Call(Made(st.count)), bits, |st.table| + 1, v, w);
  }

  lemma ArgGiven(t: Table, env: Env, st: State, bytes: bool, arg: (Env, nat) -> nat, c: nat)
    requires Gives(t, env, Next(st.last), |st.table|, c)
    ensures Gives(t, env, Sub(Next(st.last), ArgOffset), |st.table|, FromBase(env, c))
    ensures Gives(t, env, ArgExpr(st, bytes, arg), |st.table|, Scaled(bytes, arg(env, FromBase(env, c))))
  {
    var from, b := Sub(Next(st.last), ArgOffset), |st.table|;
    Sum(t, env, Next(st.last), ArgOffset, b, c, env.base % M);
    Sourced(t, env, arg, from, b, FromBase(env, c));
    Sum(t, env, Source(arg, from), Number(8), b, arg(env, FromBase(env, c)) % M, 8);
  }

  // ----- alignment -----

  /** The padding that the align thunks compute, in 64-bit arithmetic. */
  function Pad(a: nat, from: nat): nat requires a > 0 { (a - from) % M % a }

  /** The distance to the next multiple. */
  lemma NextMultiple(a: nat, x: nat)
    requires a > 0
    ensures RoundUp(x, a) - x == (if x % a == 0 then 0 else a - x % a)
    ensures x <= RoundUp(x, a) < x + a && RoundUp(x, a) % a == 0
  {
    var q, r := x / a, x % a;
    assert x == a * q + r;
    if r == 0 {
      Quotient(a, x + a - 1, q, a - 1);
      assert q * a == a * q;
    } else {
      assert a * (q + 1) == a * q + a;
      Quotient(a, x + a - 1, q + 1, r - 1);
      assert (q + 1) * a == a * (q + 1);
    }
    Quotient(a, RoundUp(x, a), (x + a - 1) / a, 0);
  }

  /** What the statements mean where nothing overflows; bytes count eight bits. */
  predicate Plainly(env: Env, bytes: bool, arg: (Env, nat) -> nat, c: nat, v: nat) {
    && env.base <= c && 2 * c < M && 0 < 2 * v < M
    && v == if bytes then 8 * arg(env, c - env.base) else arg(env, c - env.base)
  }

  lemma PlainArg(env: Env, bytes: bool, arg: (Env, nat) -> nat, c: nat, v: nat)
    requires Plainly(env, bytes, arg, c, v)
    ensures FromBase(env, c) == c - env.base && Scaled(bytes, arg(env, FromBase(env, c))) == v
  {
  }

  lemma Small(x: nat)
    requires x < M
    ensures x % M == x
  {
  }

  /** Set places the cursor at a distance from the base. */
  lemma WalkSets(env: Env, bytes: bool, arg: (Env, nat) -> nat, c: nat, v: nat)
    requires Plainly(env, bytes, arg, c, v)
    ensures Walk(env, Set(bytes, arg), c) == env.base + v
  {
    PlainArg(env, bytes, arg, c, v);
    Small(env.base);
    Small(env.base + v);
  }

  /** Skip moves it on. */
  lemma WalkSkips(env: Env, bytes: bool, arg: (Env, nat) -> nat, c: nat, v: nat)
    requires Plainly(env, bytes, arg, c, v)
    ensures Walk(env, Skip(bytes, arg), c) == c + v
  {
    PlainArg(env, bytes, arg, c, v);
    Small(c + v);
  }

  lemma AlignStep(from: nat, v: nat) returns (pad: nat)
    requires v > 0
    ensures RoundUp(from, v) == from + pad && pad < v && (from + pad) % v == 0
  {
    NextMultiple(v, from);
    pad := RoundUp(from, v) - from;
  }

  /** Align moves it on to the next aligned distance. */
  lemma WalkAligns(env: Env, bytes: bool, arg: (Env, nat) -> nat, c: nat, v: nat)
    requires Plainly(env, bytes, arg, c, v)
    ensures var c' := Walk(env, Align(bytes, arg), c); c <= c' < c + v && (c' - env.base) % v == 0
  {
    PlainArg(env, bytes, arg, c, v);
    var pad := AlignStep(c - env.base, v);
    Small(c + pad);
    assert Walk(env, Align(bytes, arg), c) == c + pad;
    assert c + pad - env.base == c - env.base + pad;
  }

  /** The remainder of a - from after it wrapped around j times. */
  lemma Wrapped(a: nat, from: nat, m: nat, k: nat, j: nat, y: nat)
    requires a > 0 && m == a * k && y == a - from + m * j && j <= 1
    ensures y % a == if from % a == 0 then 0 else a - from % a
  {
    var q, r := from / a, from % a;
    assert from == a * q + r;
    var t := 1 + k * j - q;
    assert a * t == a + a * k * j - a * q;
    if r == 0 {
      Quotient(a, y, t, 0);
    } else {
      assert a * (t - 1) == a * t - a;
      Quotient(a, y, t - 1, a - r);
    }
  }

  /** For a divisor of 2^64 the padding reaches the next multiple, although the subtraction
      wraps around once the cursor is past the first multiple. */
  lemma PadDivisor(a: nat, from: nat)
    requires 0 < a < M && from < M && M % a == 0
    ensures Pad(a, from) == RoundUp(from, a) - from
  {
    NextMultiple(a, from);
    Wrapped(a, from, M, M / a, if from <= a then 0 else 1, (a - from) % M);
  }

  /** The padding is right for every cursor exactly when the alignment divides 2^64, apart
      from the alignment 2^64 - 1, for which the subtraction never wraps around. */
  lemma PadExact(a: nat)
    requires 0 < a < M
    ensures (forall from: nat :: from < M ==> Pad(a, from) == RoundUp(from, a) - from)
            <==> M % a == 0 || a == M - 1
  {
    if M % a == 0 {
      forall from: nat | from < M ensures Pad(a, from) == RoundUp(from, a) - from { PadDivisor(a, from); }
    } else if a == M - 1 {
      forall from: nat | from < M ensures Pad(a, from) == RoundUp(from, a) - from {
        NextMultiple(a, from);
        Wrapped(a, from, 0, 0, 0, a - from);
      }
    } else {
      PadWrong(a);
    }
  }

  lemma PadWrong(a: nat)
    requires 0 < a < M - 1 && M % a != 0
    ensures Pad(a, a + 1) != RoundUp(a + 1, a) - (a + 1)
  {
    assert a > 1;
    NextMultiple(a, a + 1);
    Quotient(a, a + 1, 1, 1);
    assert (a - (a + 1)) % M == M - 1;
    var q, r := (M - 1) / a, (M - 1) % a;
    if r == a - 1 {
      assert M == a * (q + 1) by { assert a * (q + 1) == a * q + a; }
      Quotient(a, M, q + 1, 0);
    }
  }

  // ----- the compiled layout is the sequential layout -----

  /** A field that the walk meets is present and its thunk gives the cursor there; any other
      field is absent and its thunk fails. */
  ghost predicate FieldRight(t: Table, env: Env, n: string, w: map<string, nat>, bound: nat) {
    if n in w then Present(t, env, User(n)) && Gives(t, env, Call(User(n)), bound, w[n])
    else !Present(t, env, User(n)) && Fails(t, env, Call(User(n)))
  }

  ghost predicate FieldsRight(t: Table, env: Env, s: Stmt, w: map<string, nat>, bound: nat) {
    forall n :: n in Names(s) ==> FieldRight(t, env, n, w, bound)
  }

  ghost predicate Absent(t: Table, env: Env, s: Stmt) {
    forall n :: n in Names(s) ==> !Present(t, env, User(n)) && Fails(t, env, Call(User(n)))
  }

  lemma {:induction false} WhereNames(env: Env, s: Stmt, c: nat)
    ensures Where(env, s, c).Keys <= Names(s)
    decreases s
  {
    match s
    case Seq(a, b) => WhereNames(env, a, c); WhereNames(env, b, Walk(env, a, c));
    case If(t, a, e) => WhereNames(env, a, c); if e.Else? { WhereNames(env, e.stmt, c); }
    case _ =>
  }

  /** Fields under a condition that does not hold are absent. */
  lemma {:induction false} CompileAbsent(t: Table, env: Env, st: State, s: Stmt)
    requires Fresh(st, s) && Covers(t, Compile(st, s).table) && !AllHold(st.conds, env)
    ensures Absent(t, env, s)
    decreases s
  {
    match s
    case Empty =>
    case Seq(a, b) =>
      CompileExtends(st, a);
      CompileExtends(Compile(st, a), b);
      CompileAbsent(t, env, st, a);
      CompileAbsent(t, env, Compile(st, a), b);
    case Decl(n, sh) =>
      AbsentDecl(t, env, st, n, sh);
    case If(c, a, e) =>
      AbsentIf(t, env, st, c, a, e);
    case _ =>
  }

  lemma AbsentDecl(t: Table, env: Env, st: State, n: string, sh: Shape)
    requires User(n) !in st.table && Covers(t, Declared(st, n, sh).table) && !AllHold(st.conds, env)
    ensures !Present(t, env, User(n)) && Fails(t, env, Call(User(n)))
  {
    var m := Declared(st, n, sh).table;
    assert st.conds != [] && User(n) in m;
    assert t[User(n)] == m[User(n)] == Choice(st.conds, Next(st.last), Fail);
    forall fuel: nat | fuel >= 1 ensures Eval(t, env, Call(User(n)), fuel) == Failed {
      assert Eval(t, env, Fail, fuel - 1) == Failed;
    }
  }

  /** The states that compiling a conditional goes through. */
  lemma IfStates(t: Table, st: State, d: Cond, a: Stmt, e: Else)
    requires Fresh(st, If(d, a, e)) && Covers(t, Compile(st, If(d, a, e)).table)
    ensures var st1 := Compile(Under(st, d), a);
            && Fresh(Under(st, d), a) && Covers(t, st1.table)
            && |st.table| <= |st1.table| && Made(st1.count) !in st1.table
            && (e.Else? ==> var st2 := Compile(Otherwise(st, st1, d), e.stmt);
                            && Fresh(Otherwise(st, st1, d), e.stmt) && Covers(t, st2.table)
                            && |st1.table| <= |st2.table| && Made(st2.count) !in st2.table)
  {
    var st1 := Compile(Under(st, d), a);
    assert Fresh(Under(st, d), a);
    CompileExtends(Under(st, d), a);
    if e.Else? {
      var o := Otherwise(st, st1, d);
      assert Fresh(o, e.stmt);
      CompileExtends(o, e.stmt);
      var st2 := Compile(o, e.stmt);
      KeptEntries(t, st2.table, Made(st2.count), Choice(st.conds + [d], Next(st1.last), Next(st2.last)));
      CoversTrans(t, st2.table, st1.table);
    } else {
      KeptEntries(t, st1.table, Made(st1.count), Choice(st.conds + [d], Next(st1.last), Next(st.last)));
    }
  }

  lemma KeptEntries(t: Table, m: Table, n: Name, th: Thunk)
    requires Covers(t, Register(m, n, th)) && n !in m
    ensures Covers(t, m)
  {
    var r := Register(m, n, th);
    forall k | k in m ensures k in t && t[k] == m[k] { assert k in r && r[k] == m[k]; }
  }

  lemma CoversTrans(t: Table, m: Table, n: Table)
    requires Covers(t, m) && Covers(m, n)
    ensures Covers(t, n)
  {
  }

  lemma {:induction false} AbsentIf(t: Table, env: Env, st: State, c: Cond, a: Stmt, e: Else)
    requires Fresh(st, If(c, a, e)) && Covers(t, Compile(st, If(c, a, e)).table) && !AllHold(st.conds, env)
    ensures Absent(t, env, If(c, a, e))
    decreases If(c, a, e), 0
  {
    IfStates(t, st, c, a, e);
    StillFalse(st.conds, c, env);
    CompileAbsent(t, env, Under(st, c), a);
    if e.Else? {
      StillFalse(st.conds, Not(c), env);
      CompileAbsent(t, env, Otherwise(st, Compile(Under(st, c), a), c), e.stmt);
    }
  }

  lemma StillFalse(cs: seq<Cond>, c: Cond, env: Env)
    ensures AllHold(cs + [c], env) <==> AllHold(cs, env) && Holds(c, env)
  {
    if AllHold(cs + [c], env) {
      forall k | 0 <= k < |cs| ensures Holds(cs[k], env) { assert (cs + [c])[k] == cs[k]; }
      assert (cs + [c])[|cs|] == c;
    }
  }

  /** Whenever the conditions above a statement hold, its thunks give the offsets of the
      direct walk. */
  lemma {:induction false} CompileCorrect(t: Table, env: Env, st: State, s: Stmt, c: nat)
    requires Fresh(st, s) && Covers(t, Compile(st, s).table) && AllHold(st.conds, env)
    requires Regular(env, s, c) && c < M && Gives(t, env, Next(st.last), |st.table|, c)
    ensures var st' := Compile(st, s);
            && Walk(env, s, c) < M && Gives(t, env, Next(st'.last), |st'.table|, Walk(env, s, c))
            && FieldsRight(t, env, s, Where(env, s, c), |st'.table|)
    decreases s, 1
  {
    CompileExtends(st, s);
    match s
    case Empty =>
    case Seq(a, b) => SeqCorrect(t, env, st, a, b, c);
    case Decl(n, sh) => DeclCorrect(t, env, st, n, sh, c);
    case If(d, a, e) => IfCorrect(t, env, st, d, a, e, c);
    case _ => FuncCorrect(t, env, st, s, c);
  }

  lemma FuncCorrect(t: Table, env: Env, st: State, s: Stmt, c: nat)
    requires s.Set? || s.Skip? || s.Align?
    requires Fresh(st, s) && Covers(t, Compile(st, s).table)
    requires Regular(env, s, c) && c < M && Gives(t, env, Next(st.last), |st.table|, c)
    ensures var st' := Compile(st, s);
            Walk(env, s, c) < M && Gives(t, env, Next(st'.last), |st'.table|, Walk(env, s, c))
  {
    match s
    case Set(bytes, arg) => SetCorrect(t, env, st, bytes, arg, c);
    case Skip(bytes, arg) => SkipCorrect(t, env, st, bytes, arg, c);
    case Align(bytes, arg) => AlignCorrect(t, env, st, bytes, arg, c);
  }

  lemma SetCorrect(t: Table, env: Env, st: State, bytes: bool, arg: (Env, nat) -> nat, c: nat)
    requires Fresh(st, Set(bytes, arg)) && Covers(t, Compile(st, Set(bytes, arg)).table)
    requires c < M && Gives(t, env, Next(st.last), |st.table|, c)
    ensures var st' := Compile(st, Set(bytes, arg));
            Gives(t, env, Next(st'.last), |st'.table|, Walk(env, Set(bytes, arg), c))
  {
    var v, x := Scaled(bytes, arg(env, FromBase(env, c))), ArgExpr(st, bytes, arg);
    ArgGiven(t, env, st, bytes, arg, c);
    Sum(t, env, ArgOffset, x, |st.table|, env.base % M, v);
    var e := Add(ArgOffset, x);
    ModMod(env.base % M + v);
    InvisibleCorrect(t, env, st, Plain(e), e, Number(0), (env.base % M + v) % M, 0);
  }

  lemma ModMod(x: nat)
    ensures (x % M + 0) % M == x % M
  {
  }

  lemma SkipCorrect(t: Table, env: Env, st: State, bytes: bool, arg: (Env, nat) -> nat, c: nat)
    requires Fresh(st, Skip(bytes, arg)) && Covers(t, Compile(st, Skip(bytes, arg)).table)
    requires c < M && Gives(t, env, Next(st.last), |st.table|, c)
    ensures var st' := Compile(st, Skip(bytes, arg));
            Gives(t, env, Next(st'.last), |st'.table|, Walk(env, Skip(bytes, arg), c))
  {
    ArgGiven(t, env, st, bytes, arg, c);
    InvisibleCorrect(t, env, st, Plain(Next(st.last)), Next(st.last), ArgExpr(st, bytes, arg), c,
                     Scaled(bytes, arg(env, FromBase(env, c))));
  }

  lemma AlignCorrect(t: Table, env: Env, st: State, bytes: bool, arg: (Env, nat) -> nat, c: nat)
    requires Fresh(st, Align(bytes, arg)) && Covers(t, Compile(st, Align(bytes, arg)).table)
    requires Regular(env, Align(bytes, arg), c) && c < M && Gives(t, env, Next(st.last), |st.table|, c)
    ensures var st' := Compile(st, Align(bytes, arg));
            Gives(t, env, Next(st'.last), |st'.table|, Walk(env, Align(bytes, arg), c))
  {
    var f := FromBase(env, c);
    var v, x, from := Scaled(bytes, arg(env, f)), ArgExpr(st, bytes, arg), Sub(Next(st.last), ArgOffset);
    ArgGiven(t, env, st, bytes, arg, c);
    PadGiven(t, env, x, from, |st.table|, v, f);
    PadDivisor(v, f);
    InvisibleCorrect(t, env, st, Plain(Next(st.last)), Next(st.last), Mod(Sub(x, from), x), c, Pad(v, f));
  }

  lemma PadGiven(t: Table, env: Env, x: Expr, from: Expr, bound: nat, v: nat, f: nat)
    requires Gives(t, env, x, bound, v) && Gives(t, env, from, bound, f) && v > 0
    ensures Gives(t, env, Mod(Sub(x, from), x), bound, Pad(v, f))
  {
    Sum(t, env, x, from, bound, v, f);
    Sum(t, env, Sub(x, from), x, bound, (v - f) % M, v);
  }

  lemma {:induction false} SeqCorrect(t: Table, env: Env, st: State, a: Stmt, b: Stmt, c: nat)
    requires Fresh(st, Seq(a, b)) && Covers(t, Compile(st, Seq(a, b)).table) && AllHold(st.conds, env)
    requires Regular(env, Seq(a, b), c) && c < M && Gives(t, env, Next(st.last), |st.table|, c)
    ensures var s := Seq(a, b); var st' := Compile(st, s);
            && Walk(env, s, c) < M && Gives(t, env, Next(st'.last), |st'.table|, Walk(env, s, c))
            && FieldsRight(t, env, s, Where(env, s, c), |st'.table|)
    decreases Seq(a, b), 0
  {
    var st1 := Compile(st, a);
    CompileExtends(st, a);
    CompileExtends(st1, b);
    CompileCorrect(t, env, st, a, c);
    CompileCorrect(t, env, st1, b, Walk(env, a, c));
    var bound := |Compile(st1, b).table|;
    var wa, wb := Where(env, a, c), Where(env, b, Walk(env, a, c));
    WhereNames(env, a, c);
    WhereNames(env, b, Walk(env, a, c));
    forall n | n in Names(Seq(a, b)) ensures FieldRight(t, env, n, wa + wb, bound) {
      if n in Names(a) {
        assert FieldRight(t, env, n, wa, |st1.table|);
      } else {
        assert FieldRight(t, env, n, wb, bound);
      }
    }
  }

  /** What is known of a branch: taken, or not taken. */
  ghost predicate BranchRight(t: Table, env: Env, st: State, taken: bool, s: Stmt, c: nat) {
    var st' := Compile(st, s);
    if taken then
      && Walk(env, s, c) < M && Gives(t, env, Next(st'.last), |st'.table|, Walk(env, s, c))
      && FieldsRight(t, env, s, Where(env, s, c), |st'.table|)
    else Absent(t, env, s)
  }

  lemma {:induction false} BranchCorrect(t: Table, env: Env, st: State, s: Stmt, c: nat)
    requires Fresh(st, s) && Covers(t, Compile(st, s).table) && c < M
    requires AllHold(st.conds, env) ==> Regular(env, s, c) && Gives(t, env, Next(st.last), |st.table|, c)
    ensures BranchRight(t, env, st, AllHold(st.conds, env), s, c)
    decreases s, 2
  {
    if AllHold(st.conds, env) { CompileCorrect(t, env, st, s, c); } else { CompileAbsent(t, env, st, s); }
  }

  lemma {:induction false} IfCorrect(t: Table, env: Env, st: State, d: Cond, a: Stmt, e: Else, c: nat)
    requires Fresh(st, If(d, a, e)) && Covers(t, Compile(st, If(d, a, e)).table) && AllHold(st.conds, env)
    requires Regular(env, If(d, a, e), c) && c < M && Gives(t, env, Next(st.last), |st.table|, c)
    ensures var s := If(d, a, e); var st' := Compile(st, s);
            && Walk(env, s, c) < M && Gives(t, env, Next(st'.last), |st'.table|, Walk(env, s, c))
            && FieldsRight(t, env, s, Where(env, s, c), |st'.table|)
    decreases If(d, a, e), 0
  {
    var st1 := Compile(Under(st, d), a);
    IfStates(t, st, d, a, e);
    StillFalse(st.conds, d, env);
    StillFalse(st.conds, Not(d), env);
    BranchCorrect(t, env, Under(st, d), a, c);
    if e.Else? {
      BranchCorrect(t, env, Otherwise(st, st1, d), e.stmt, c);
      ElseRebased(t, env, st, d, a, e.stmt, c);
    } else {
      NoElseRebased(t, env, st, d, a, c);
    }
  }

  lemma NoElseRebased(t: Table, env: Env, st: State, d: Cond, a: Stmt, c: nat)
    requires Fresh(st, If(d, a, NoElse)) && Covers(t, Compile(st, If(d, a, NoElse)).table) && AllHold(st.conds, env)
    requires c < M && Gives(t, env, Next(st.last), |st.table|, c)
    requires BranchRight(t, env, Under(st, d), Holds(d, env), a, c)
    ensures BranchRight(t, env, st, true, If(d, a, NoElse), c)
  {
    var st1 := Compile(Under(st, d), a);
    IfStates(t, st, d, a, NoElse);
    RebaseGives(t, env, st, d, st1.table, st1.count, Next(st1.last), Next(st.last), Walk(env, If(d, a, NoElse), c));
    NoElseFields(t, env, d, a, c, |st1.table|);
  }

  /** The rebase field gives the cursor after the branch that is taken. */
  lemma RebaseGives(t: Table, env: Env, st: State, d: Cond, table: Table, count: nat, yes: Expr, no: Expr, v: nat)
    requires Covers(t, Rebased(st, d, table, count, yes, no).table) && Made(count) !in table && v < M
    requires AllHold(st.conds, env) && Gives(t, env, if Holds(d, env) then yes else no, |table|, v)
    ensures var st' := Rebased(st, d, table, count, yes, no);
            |st'.table| == |table| + 1 && Gives(t, env, Next(st'.last), |st'.table|, v)
  {
    StillFalse(st.conds, d, env);
    var inner := State(table, st.last, st.conds, count);
    var e := if Holds(d, env) then yes else no;
    InvisibleCorrect(t, env, inner, Choice(st.conds + [d], yes, no), e, Number(0), v, 0);
  }

  lemma NoElseFields(t: Table, env: Env, d: Cond, a: Stmt, c: nat, bound: nat)
    requires if Holds(d, env) then FieldsRight(t, env, a, Where(env, a, c), bound) else Absent(t, env, a)
    ensures FieldsRight(t, env, If(d, a, NoElse), Where(env, If(d, a, NoElse), c), bound + 1)
  {
    var s := If(d, a, NoElse);
    forall n | n in Names(s) ensures FieldRight(t, env, n, Where(env, s, c), bound + 1) {
      if Holds(d, env) { assert FieldRight(t, env, n, Where(env, a, c), bound); }
    }
  }

  lemma ElseFields(t: Table, env: Env, d: Cond, a: Stmt, b: Stmt, c: nat, bound: nat, bound': nat)
    requires Names(a) !! Names(b) && bound <= bound'
    requires if Holds(d, env) then FieldsRight(t, env, a, Where(env, a, c), bound) && Absent(t, env, b)
             else FieldsRight(t, env, b, Where(env, b, c), bound) && Absent(t, env, a)
    ensures FieldsRight(t, env, If(d, a, Else(b)), Where(env, If(d, a, Else(b)), c), bound')
  {
    var s, taken := If(d, a, Else(b)), if Holds(d, env) then a else b;
    WhereNames(env, taken, c);
    forall n | n in Names(s) ensures FieldRight(t, env, n, Where(env, s, c), bound') {
      if n in Names(taken) { assert FieldRight(t, env, n, Where(env, taken, c), bound); }
    }
  }

  lemma ElseRebased(t: Table, env: Env, st: State, d: Cond, a: Stmt, b: Stmt, c: nat)
    requires Fresh(st, If(d, a, Else(b))) && Covers(t, Compile(st, If(d, a, Else(b))).table) && AllHold(st.conds, env)
    requires c < M
    requires BranchRight(t, env, Under(st, d), Holds(d, env), a, c)
    requires BranchRight(t, env, Otherwise(st, Compile(Under(st, d), a), d), !Holds(d, env), b, c)
    ensures BranchRight(t, env, st, true, If(d, a, Else(b)), c)
  {
    var st1 := Compile(Under(st, d), a);
    var st2 := Compile(Otherwise(st, st1, d), b);
    IfStates(t, st, d, a, Else(b));
    RebaseGives(t, env, st, d, st2.table, st2.count, Next(st1.last), Next(st2.last), Walk(env, If(d, a, Else(b)), c));
    ElseFields(t, env, d, a, b, c, if Holds(d, env) then |st1.table| else |st2.table|, |st2.table| + 1);
  }

  /** The offset and size thunks agree with the direct walk. */
  ghost predicate LayoutRight(t: Table, size: Expr, env: Env, s: Stmt) {
    && FieldsRight(t, env, s, Where(env, s, env.base % M), |t|)
    && Gives(t, env, size, |t|, (Walk(env, s, env.base % M) - env.base % M) % M)
  }

  /** Compiled layout is sequential layout. */
  lemma LayoutCorrect(env: Env, s: Stmt)
    requires Distinct(s) && Regular(env, s, env.base % M)
    ensures LayoutRight(Compiled(s).table, SizeExpr(Compiled(s)), env, s)
  {
    Sized(Compiled(s), env, s, env.base % M);
  }

  lemma Sized(st': State, env: Env, s: Stmt, c: nat)
    requires Distinct(s) && Regular(env, s, c) && c == env.base % M && st' == Compiled(s)
    ensures FieldsRight(st'.table, env, s, Where(env, s, c), |st'.table|)
    ensures Gives(st'.table, env, SizeExpr(st'), |st'.table|, (Walk(env, s, c) - c) % M)
  {
    FromInit(st', env, s, c);
    SizeGiven(st', env, Walk(env, s, c));
  }

  lemma FromInit(st': State, env: Env, s: Stmt, c: nat)
    requires Distinct(s) && Regular(env, s, c) && c == env.base % M && st' == Compiled(s)
    ensures Gives(st'.table, env, Next(st'.last), |st'.table|, Walk(env, s, c))
    ensures FieldsRight(st'.table, env, s, Where(env, s, c), |st'.table|)
  {
    CompileExtends(Init(), s);
    StartsAtBase(st'.table, env);
    CompileCorrect(st'.table, env, Init(), s, c);
  }

  lemma SizeGiven(st: State, env: Env, v: nat)
    requires Gives(st.table, env, Next(st.last), |st.table|, v)
    ensures Gives(st.table, env, SizeExpr(st), |st.table|, (v - env.base % M) % M)
  {
    Sum(st.table, env, Next(st.last), ArgOffset, |st.table|, v, env.base % M);
  }

  /** The symbol table of a type and its size thunk. */
  method GetSymTab(s: Stmt) returns (table: Table, size: Expr)
    requires Wellformed(s)
    ensures Distinct(s) ==> forall env: Env :: Regular(env, s, env.base % M) ==> LayoutRight(table, size, env, s)
  {
    var b := new Builder();
    b.Visit(s);
    table := b.table;
    size := Sub(Next(b.last), ArgOffset);
    forall env: Env | Distinct(s) && Regular(env, s, env.base % M) ensures LayoutRight(table, size, env, s) {
      LayoutCorrect(env, s);
    }
  }

  lemma StartsAtBase(t: Table, env: Env)
    requires Covers(t, Init().table)
    ensures Gives(t, env, Next(Init().last), |Init().table|, env.base % M)
  {
    var st, c := Init(), env.base % M;
    assert Base in st.table;
    Chosen(t, env, Base, ArgOffset, 0, c);
    Sum(t, env, Call(Base), st.last.bits, 1, c, 0);
  }

  // ----- where a type starts -----

  lemma {:induction false} WalkBelow(env: Env, s: Stmt, c: nat)
    requires c < M
    ensures Walk(env, s, c) < M
    decreases s
  {
    match s
    case Seq(a, b) => WalkBelow(env, a, c); WalkBelow(env, b, Walk(env, a, c));
    case If(_, a, e) => WalkBelow(env, a, c); if e.Else? { WalkBelow(env, e.stmt, c); }
    case _ =>
  }

  lemma {:induction false} RegularAtZero(env: Env, s: Stmt, c: nat)
    requires env.base % M == 0 && c < M && AlignsFit(env, s, c)
    ensures Regular(env, s, c)
    decreases s
  {
    match s
    case Seq(a, b) => WalkBelow(env, a, c); RegularAtZero(env, a, c); RegularAtZero(env, b, Walk(env, a, c));
    case If(d, a, e) =>
      if Holds(d, env) { RegularAtZero(env, a, c); } else if e.Else? { RegularAtZero(env, e.stmt, c); }
    case Decl(_, _) => assert FromBase(env, c) == c;
    case _ =>
  }

  /** The layout is right, where alignments are powers of two. */
  ghost predicate RightFor(env: Env, s: Stmt) {
    Distinct(s) && AlignsFit(env, s, env.base % M) ==>
      LayoutRight(Compiled(s).table, SizeExpr(Compiled(s)), env, s)
  }

  /** An array of one-bit elements, as many as from_base_bits() says. */
  function AsManyAsBefore(): Stmt { Decl("a", Uniform((_: Env) => 1, (_: Env, from: nat) => from)) }

  /** Such an array at the start of a type that does not start at 0 should be empty, and takes
      as many bits as lie before the type. */
  lemma CountedFromZero(env: Env)
    requires env.base % M != 0
    ensures !RightFor(env, AsManyAsBefore())
  {
    var s, st', c := AsManyAsBefore(), Compiled(AsManyAsBefore()), env.base % M;
    TakesAllBefore(env, st', c);
    assert Walk(env, s, c) == c by { BitsBefore(env, c); }
    assert Eval(st'.table, env, SizeExpr(st'), |st'.table|) == Val(c);
    assert !Gives(st'.table, env, SizeExpr(st'), |st'.table|, (c - c) % M);
  }

  lemma BitsBefore(env: Env, c: nat)
    requires c == env.base % M
    ensures Bits(env, AsManyAsBefore().shape, c) == 0 && ShapeBits(env, AsManyAsBefore().shape, c, c) == c
  {
    assert FromBase(env, c) == 0;
  }

  lemma TakesAllBefore(env: Env, st': State, c: nat)
    requires st' == Compiled(AsManyAsBefore()) && c == env.base % M
    ensures Gives(st'.table, env, SizeExpr(st'), |st'.table|, c)
  {
    var st, sh := Init(), AsManyAsBefore().shape;
    StartsAtBase(st'.table, env);
    DeclGives(st'.table, env, st, "a", sh, c);
    BitsBefore(env, c);
    assert |st'.table| == |st.table| + 1;
    Twice(c);
    SizeGiven(st', env, (c + c) % M);
  }

  lemma Twice(c: nat)
    requires c < M
    ensures (c + c) % M >= 0 && ((c + c) % M - c) % M == c
  {
    var j: int := 0 - c;
    ModPlus(M, c + c, j);
  }

  /** The compiler is right for every type, alignments aside, exactly when the type starts at
      offset 0: there the cursor is its own distance from the base. */
  lemma RightExactlyAtZero(env: Env)
    ensures (forall s: Stmt :: RightFor(env, s)) <==> env.base % M == 0
  {
    if env.base % M == 0 {
      forall s: Stmt ensures RightFor(env, s) {
        if Distinct(s) && AlignsFit(env, s, env.base % M) {
          RegularAtZero(env, s, env.base % M);
          LayoutCorrect(env, s);
        }
      }
    } else {
      CountedFromZero(env);
    }
  }

  // ----- names that are declared twice -----

  datatype Option<T> = None | Some(value: T)

  /** The conditions above the first declaration of a name, below conditions cs. */
  function FirstConds(s: Stmt, n: string, cs: seq<Cond>): Option<seq<Cond>> {
    match s
    case Seq(a, b) => var x := FirstConds(a, n, cs); if x.Some? then x else FirstConds(b, n, cs)
    case Decl(m, _) => if m == n then Some(cs) else None
    case If(c, a, e) =>
      var x := FirstConds(a, n, cs + [c]);
      if x.Some? || e.NoElse? then x else FirstConds(e.stmt, n, cs + [Not(c)])
    case _ => None
  }

  lemma {:induction false} FirstIsDeclared(s: Stmt, n: string, cs: seq<Cond>)
    ensures FirstConds(s, n, cs).Some? <==> n in Names(s)
    decreases s
  {
    match s
    case Seq(a, b) => FirstIsDeclared(a, n, cs); FirstIsDeclared(b, n, cs);
    case If(c, a, e) => FirstIsDeclared(a, n, cs + [c]); if e.Else? { FirstIsDeclared(e.stmt, n, cs + [Not(c)]); }
    case _ =>
  }

  /** The thunk of a field whose first declaration has conditions cs. */
  ghost predicate FirstThunk(t: Table, n: string, cs: seq<Cond>) {
    && User(n) in t
    && if cs == [] then t[User(n)].Plain? else t[User(n)].Choice? && t[User(n)].conds == cs && t[User(n)].no == Fail
  }

  ghost predicate Keeps(t: Table, t': Table, n: string) {
    if User(n) in t then User(n) in t' && t'[User(n)] == t[User(n)] else true
  }

  /** The first registration of a name wins, whatever is declared later. */
  lemma {:induction false} FirstWins(st: State, s: Stmt, n: string)
    ensures Keeps(st.table, Compile(st, s).table, n) && Compile(st, s).conds == st.conds
    ensures User(n) !in st.table ==>
              if n in Names(s) then
                && FirstConds(s, n, st.conds).Some?
                && FirstThunk(Compile(st, s).table, n, FirstConds(s, n, st.conds).value)
              else User(n) !in Compile(st, s).table
    decreases s
  {
    FirstIsDeclared(s, n, st.conds);
    match s
    case Seq(a, b) =>
      FirstIsDeclared(a, n, st.conds);
      FirstWins(st, a, n);
      FirstWins(Compile(st, a), b, n);
    case If(c, a, e) =>
      FirstIsDeclared(a, n, st.conds + [c]);
      FirstWins(Under(st, c), a, n);
      if e.Else? { FirstWins(Otherwise(st, Compile(Under(st, c), a), c), e.stmt, n); }
    case _ =>
  }

  /** A field is present exactly when the conditions of its first declaration hold; so a
      field that the walk meets at a later declaration, while those do not hold, is absent and
      its thunk fails. */
  lemma SameNameFails(env: Env, s: Stmt, n: string, fuel: nat)
    requires n in Names(s) && fuel >= 1
    ensures FirstConds(s, n, []).Some?
    ensures Present(Compiled(s).table, env, User(n)) <==> AllHold(FirstConds(s, n, []).value, env)
    ensures !AllHold(FirstConds(s, n, []).value, env) ==> Eval(Compiled(s).table, env, Call(User(n)), fuel) == Failed
  {
    FirstIsDeclared(s, n, []);
    FirstWins(Init(), s, n);
  }

  /** Such a field: declared in both branches of a conditional, and the second is taken. */
  lemma SecondBranchFails(env: Env, n: string, c: Cond, a: Stmt, b: Stmt, fuel: nat)
    requires !Holds(c, env) && n in Names(a) && n in Where(env, b, env.base % M) && fuel >= 1
    ensures var s := If(c, a, Else(b));
            n in Where(env, s, env.base % M) && Eval(Compiled(s).table, env, Call(User(n)), fuel) == Failed
  {
    var s := If(c, a, Else(b));
    FirstIsDeclared(a, n, [] + [c]);
    FirstUnder(a, n, [] + [c], c);
    assert FirstConds(s, n, []) == FirstConds(a, n, [] + [c]);
    SameNameFails(env, s, n, fuel);
  }

  /** The conditions found below cs contain those of cs. */
  lemma {:induction false} FirstUnder(s: Stmt, n: string, cs: seq<Cond>, c: Cond)
    requires c in cs && n in Names(s)
    ensures FirstConds(s, n, cs).Some? && c in FirstConds(s, n, cs).value
    decreases s
  {
    FirstIsDeclared(s, n, cs);
    match s
    case Seq(a, b) =>
      FirstIsDeclared(a, n, cs);
      if n in Names(a) { FirstUnder(a, n, cs, c); } else { FirstUnder(b, n, cs, c); }
    case If(d, a, e) =>
      FirstIsDeclared(a, n, cs + [d]);
      if n in Names(a) { FirstUnder(a, n, cs + [d], c); } else { FirstUnder(e.stmt, n, cs + [Not(d)], c); }
    case _ =>
  }
}
