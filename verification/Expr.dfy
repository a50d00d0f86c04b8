/** The expression tree of the compiler: constant folding and rewriting keep the value.
    Nodes are updated in place in the compiler; here an operation returns the node as it is
    afterwards beside its result. */
module Expr {
  import opened Arith
  import opened Bits

  datatype Op = AndOp | OrOp | AddOp | SubOp | DivOp | MulOp | LShift | RShift | ModOp

  datatype Expr =
    | Id(name: string)
    | Number(n: nat)
    | Binary(op: Op, lhs: Expr, rhs: Expr, simplified: bool)
    | FCall(name: string, args: Args)
    | IdArray(name: string, idx: Expr)
    | Parens(inner: Expr)
    | Trap  // what folding a zero divisor or an oversized shift leaves: nothing that has a value

  datatype Args = Nil | Cons(head: Expr, tail: Args)

  datatype Option<T> = None | Some(value: T)

  // ----- values -----

  /** 64-bit arithmetic; a zero divisor and a shift by 64 or more have no value. */
  function DoOp(op: Op, a: nat, b: nat): Option<nat> {
    match op
    case AndOp => Some(And(a, b) % U64)
    case OrOp => Some(Or(a, b) % U64)
    case AddOp => Some((a + b) % U64)
    case SubOp => Some((a - b) % U64)
    case MulOp => Some(a * b % U64)
    case DivOp => if b == 0 then None else Some(a / b)
    case ModOp => if b == 0 then None else Some(a % b)
    case LShift => if b >= 64 then None else Some(Shl(a, b) % U64)
    case RShift => if b >= 64 then None else Some(Shr(a, b))
  }

  datatype Env = Env(ids: string -> nat, calls: (string, seq<nat>) -> nat, arrays: (string, nat) -> nat)

  function Value(env: Env, e: Expr): Option<nat> {
    match e
    case Id(x) => Some(env.ids(x))
    case Number(n) => Some(n)
    case Binary(op, l, r, _) =>
      var a, b := Value(env, l), Value(env, r);
      if a.Some? && b.Some? then DoOp(op, a.value, b.value) else None
    case FCall(f, args) =>
      var vs := Values(env, args);
      if vs.Some? then Some(env.calls(f, vs.value)) else None
    case IdArray(x, i) =>
      var v := Value(env, i);
      if v.Some? then Some(env.arrays(x, v.value)) else None
    case Parens(i) => Value(env, i)
    case Trap => None
  }

  function Values(env: Env, args: Args): Option<seq<nat>> {
    match args
    case Nil => Some([])
    case Cons(h, t) =>
      var v, vs := Value(env, h), Values(env, t);
      if v.Some? && vs.Some? then Some([v.value] + vs.value) else None
  }

  // ----- folding -----

  function Size(e: Expr): nat {
    match e
    case Binary(_, l, r, _) => 1 + Size(l) + Size(r)
    case FCall(_, args) => 1 + ArgsSize(args)
    case IdArray(_, i) => 1 + Size(i)
    case Parens(i) => 1 + Size(i)
    case _ => 1
  }

  function ArgsSize(args: Args): nat {
    match args case Nil => 0 case Cons(h, t) => Size(h) + ArgsSize(t) + 1
  }

  /** copy: the flag of a copy is clear, and the constructor of a call simplifies its arguments. */
  function Copy(e: Expr): (r: Expr)
    ensures Size(r) <= Size(e)
    decreases Size(e), 0
  {
    match e
    case Binary(op, l, r, _) => Binary(op, Copy(l), Copy(r), false)
    case FCall(f, args) => FCall(f, SimplifyArgs(CopyArgs(args)))
    case IdArray(x, i) => IdArray(x, Copy(i))
    case Parens(i) => Parens(Copy(i))
    case _ => e
  }

  function CopyArgs(args: Args): (r: Args)
    ensures ArgsSize(r) <= ArgsSize(args)
    decreases ArgsSize(args), 2
  {
    match args case Nil => Nil case Cons(h, t) => Cons(Copy(h), CopyArgs(t))
  }

  function SimplifyArgs(args: Args): (r: Args)
    ensures ArgsSize(r) <= ArgsSize(args)
    decreases ArgsSize(args), 2
  {
    match args case Nil => Nil case Cons(h, t) => Cons(Simplify(h), SimplifyArgs(t))
  }

  /** The node after simplify was called on it: the sides are replaced once, and the flag says so. */
  function AfterSimplify(e: Expr): (r: Expr)
    ensures Size(r) <= Size(e)
    decreases Size(e), 0
  {
    match e
    case Binary(op, l, r, false) => Binary(op, Simplify(l), Simplify(r), true)
    case Parens(i) => Parens(AfterSimplify(i))
    case _ => e
  }

  function Simplify(e: Expr): (r: Expr)
    ensures Size(r) <= Size(e)
    decreases Size(e), 1
  {
    match e
    case Binary(_, _, _, _) =>
      var b := AfterSimplify(e);
      if b.lhs.Number? && b.rhs.Number? then
        var v := DoOp(b.op, b.lhs.n, b.rhs.n);
        if v.Some? then Number(v.value) else Trap
      else Copy(b)
    case Parens(i) => Parens(Simplify(i))
    case _ => Copy(e)
  }

  // ----- rewriting -----

  /** The rewritten node, what the call returned, and the replacement, which is simplified in
      place every time it is used. */
  datatype Rewritten = Rewritten(self: Expr, result: Option<Expr>, repl: Expr)

  function Chosen(r: Rewritten): Expr { if r.result.Some? then r.result.value else r.self }

  /** rewrite for an identifier x. */
  function Rewrite(e: Expr, x: string, new_: Expr): Rewritten {
    match e
    case Id(y) => if x == y then Rewritten(e, Some(Simplify(new_)), AfterSimplify(new_)) else Rewritten(e, None, new_)
    case Binary(op, l, r, flag) =>
      var rl := Rewrite(l, x, new_);
      var rr := Rewrite(r, x, rl.repl);
      Rewritten(Binary(op, Chosen(rl), Chosen(rr), flag), None, rr.repl)
    case FCall(f, args) =>
      var (as', n') := RewriteArgs(args, x, new_);
      Rewritten(FCall(f, as'), None, n')
    case IdArray(a, i) =>
      var ri := Rewrite(i, x, new_);
      Rewritten(IdArray(a, Chosen(ri)), None, ri.repl)
    case Parens(i) =>
      var ri := Rewrite(i, x, new_);
      Rewritten(Parens(Chosen(ri)), None, ri.repl)
    case _ => Rewritten(e, None, new_)
  }

  function RewriteArgs(args: Args, x: string, new_: Expr): (Args, Expr) {
    match args
    case Nil => (Nil, new_)
    case Cons(h, t) =>
      var rh := Rewrite(h, x, new_);
      var (t', n') := RewriteArgs(t, x, rh.repl);
      (Cons(Chosen(rh), t'), n')
  }

  /** rewriteReplace */
  function RewriteReplace(e: Expr, x: string, new_: Expr): Expr { Chosen(Rewrite(e, x, new_)) }

  // ----- folding keeps the value -----

  /** r has the value of e wherever e has one. */
  predicate Same(env: Env, e: Expr, r: Expr) { Value(env, e).Some? ==> Value(env, r) == Value(env, e) }
  predicate SameArgs(env: Env, a: Args, r: Args) { Values(env, a).Some? ==> Values(env, r) == Values(env, a) }

  lemma {:induction false} CopySame(env: Env, e: Expr)
    ensures Same(env, e, Copy(e))
    decreases Size(e), 0
  {
    match e
    case Binary(_, l, r, _) => CopySame(env, l); CopySame(env, r);
    case FCall(_, args) =>
      CopyArgsSame(env, args);
      SimplifyArgsSame(env, CopyArgs(args));
    case IdArray(_, i) => CopySame(env, i);
    case Parens(i) => CopySame(env, i);
    case _ =>
  }

  lemma {:induction false} CopyArgsSame(env: Env, args: Args)
    ensures SameArgs(env, args, CopyArgs(args))
    decreases ArgsSize(args), 2
  {
    if args.Cons? {
      CopySame(env, args.head);
      CopyArgsSame(env, args.tail);
    }
  }

  lemma {:induction false} SimplifyArgsSame(env: Env, args: Args)
    ensures SameArgs(env, args, SimplifyArgs(args))
    decreases ArgsSize(args), 2
  {
    if args.Cons? {
      SimplifySame(env, args.head);
      SimplifyArgsSame(env, args.tail);
    }
  }

  /** Neither the result of simplify nor the node it leaves behind changes the value, whatever
      the flags say. */
  lemma {:induction false} SimplifySame(env: Env, e: Expr)
    ensures Same(env, e, Simplify(e))
    ensures Same(env, e, AfterSimplify(e))
    decreases Size(e), 1
  {
    match e
    case Binary(op, l, r, flag) =>
      if !flag { SimplifySame(env, l); SimplifySame(env, r); }
      CopySame(env, AfterSimplify(e));
    case Parens(i) => SimplifySame(env, i);
    case _ => CopySame(env, e);
  }

  // ----- rewriting is substitution -----

  function Bind(env: Env, x: string, v: nat): Env {
    Env((y: string) => Override(env, x, v, y), env.calls, env.arrays)
  }

  function Override(env: Env, x: string, v: nat, y: string): nat { if y == x then v else env.ids(y) }

  /** The rewritten expression has, where the replacement stands for x, the value of the old
      one; the replacement may mention x itself, and keeps its own value. */
  lemma {:induction false} RewriteSame(env: Env, e: Expr, x: string, new_: Expr, v: nat)
    requires Value(env, new_) == Some(v)
    ensures Value(Bind(env, x, v), e).Some? ==> Value(env, RewriteReplace(e, x, new_)) == Value(Bind(env, x, v), e)
    ensures Value(env, Rewrite(e, x, new_).repl) == Some(v)
  {
    match e
    case Id(y) => SimplifySame(env, new_);
    case Binary(_, l, r, _) =>
      RewriteSame(env, l, x, new_, v);
      RewriteSame(env, r, x, Rewrite(l, x, new_).repl, v);
    case FCall(_, args) => RewriteArgsSame(env, args, x, new_, v);
    case IdArray(_, i) => RewriteSame(env, i, x, new_, v);
    case Parens(i) => RewriteSame(env, i, x, new_, v);
    case _ =>
  }

  lemma {:induction false} RewriteArgsSame(env: Env, args: Args, x: string, new_: Expr, v: nat)
    requires Value(env, new_) == Some(v)
    ensures Values(Bind(env, x, v), args).Some? ==>
              Values(env, RewriteArgs(args, x, new_).0) == Values(Bind(env, x, v), args)
    ensures Value(env, RewriteArgs(args, x, new_).1) == Some(v)
  {
    if args.Cons? {
      RewriteSame(env, args.head, x, new_, v);
      RewriteArgsSame(env, args.tail, x, Rewrite(args.head, x, new_).repl, v);
    }
  }

  /** Plain substitution, the replacement left as it is. */
  function Subst(e: Expr, x: string, new_: Expr): Expr {
    match e
    case Id(y) => if x == y then new_ else e
    case Binary(op, l, r, flag) => Binary(op, Subst(l, x, new_), Subst(r, x, new_), flag)
    case FCall(f, args) => FCall(f, SubstArgs(args, x, new_))
    case IdArray(a, i) => IdArray(a, Subst(i, x, new_))
    case Parens(i) => Parens(Subst(i, x, new_))
    case _ => e
  }

  function SubstArgs(args: Args, x: string, new_: Expr): Args {
    match args case Nil => Nil case Cons(h, t) => Cons(Subst(h, x, new_), SubstArgs(t, x, new_))
  }

  lemma {:induction false} SubstValue(env: Env, e: Expr, x: string, new_: Expr, v: nat)
    requires Value(env, new_) == Some(v)
    ensures Value(env, Subst(e, x, new_)) == Value(Bind(env, x, v), e)
  {
    match e
    case Binary(_, l, r, _) => SubstValue(env, l, x, new_, v); SubstValue(env, r, x, new_, v);
    case FCall(_, args) => SubstArgsValue(env, args, x, new_, v);
    case IdArray(_, i) => SubstValue(env, i, x, new_, v);
    case Parens(i) => SubstValue(env, i, x, new_, v);
    case _ =>
  }

  lemma {:induction false} SubstArgsValue(env: Env, args: Args, x: string, new_: Expr, v: nat)
    requires Value(env, new_) == Some(v)
    ensures Values(env, SubstArgs(args, x, new_)) == Values(Bind(env, x, v), args)
  {
    if args.Cons? {
      SubstValue(env, args.head, x, new_, v);
      SubstArgsValue(env, args.tail, x, new_, v);
    }
  }

  /** Rewriting an identifier is substitution, in every environment. */
  lemma RewriteIsSubst(env: Env, e: Expr, x: string, new_: Expr)
    requires Value(env, new_).Some?
    ensures Same(env, Subst(e, x, new_), RewriteReplace(e, x, new_))
  {
    var v := Value(env, new_).value;
    RewriteSame(env, e, x, new_, v);
    SubstValue(env, e, x, new_, v);
  }

  // ----- what the operators compute -----

  /** What folding an operation on two numbers gives. */
  function Fold(op: Op, a: nat, b: nat): Expr { Simplify(Binary(op, Number(a), Number(b), false)) }

  lemma NumberStays(n: nat)
    ensures Simplify(Number(n)) == Number(n)
  {
  }

  lemma FoldIs(op: Op, a: nat, b: nat)
    ensures Fold(op, a, b) == var v := DoOp(op, a, b); if v.Some? then Number(v.value) else Trap
  {
    NumberStays(a);
    NumberStays(b);
    var e := Binary(op, Number(a), Number(b), false);
    assert AfterSimplify(e) == Binary(op, Simplify(e.lhs), Simplify(e.rhs), true);
  }

  /** The sum and the difference, but for 2^64; subtraction undoes addition. */
  lemma FoldAddSub(a: Word, b: Word) returns (sum: Word, diff: Word)
    ensures Fold(AddOp, a, b) == Number(sum) && (sum == a + b || sum + U64 == a + b)
    ensures Fold(SubOp, a, b) == Number(diff) && (diff + b == a || diff + b == a + U64)
    ensures Fold(SubOp, sum, b) == Number(a)
  {
    sum, diff := (a + b) % U64, (a - b) % U64;
    FoldIs(AddOp, a, b);
    FoldIs(SubOp, a, b);
    FoldIs(SubOp, sum, b);
  }

  /** The product, but for a multiple of 2^64. */
  lemma FoldMul(a: Word, b: Word) returns (q: nat, r: Word)
    ensures Fold(MulOp, a, b) == Number(r) && a * b == U64 * q + r
  {
    var p: nat := a * b;
    FoldIs(MulOp, a, b);
    q, r := p / U64, p % U64;
  }

  /** Quotient and remainder; a zero divisor traps. */
  lemma FoldDivMod(a: Word, b: Word) returns (q: Word, r: Word)
    ensures b == 0 ==> Fold(DivOp, a, b) == Trap && Fold(ModOp, a, b) == Trap
    ensures b != 0 ==> Fold(DivOp, a, b) == Number(q) && Fold(ModOp, a, b) == Number(r)
    ensures b != 0 ==> a == b * q + r && r < b
  {
    FoldIs(DivOp, a, b);
    FoldIs(ModOp, a, b);
    q, r := 0, 0;
    if b != 0 {
      DivLe(b * (a / b), a, b);
      assert a == b * (a / b) + a % b;
      TimesLe(a / b, 1, b);
      q, r := a / b, a % b;
    }
  }

  /** A shift to the left multiplies by a power of two, but for a multiple of 2^64. */
  lemma FoldLShift(a: Word, b: Word) returns (q: nat, r: Word)
    ensures b >= 64 ==> Fold(LShift, a, b) == Trap
    ensures b < 64 ==> Fold(LShift, a, b) == Number(r) && a * Pow2(b) == U64 * q + r
  {
    FoldIs(LShift, a, b);
    ShlPow2Mul(a, b);
    q, r := Shl(a, b) / U64, Shl(a, b) % U64;
  }

  /** A shift to the right divides by a power of two. */
  lemma FoldRShift(a: Word, b: Word) returns (q: Word, rest: nat)
    ensures b >= 64 ==> Fold(RShift, a, b) == Trap
    ensures b < 64 ==> Fold(RShift, a, b) == Number(q) && a == Pow2(b) * q + rest && rest < Pow2(b)
  {
    FoldIs(RShift, a, b);
    LowShr(a, b);
    ShlPow2Mul(Shr(a, b), b);
    LowBound(a, b);
    TimesLe(Shr(a, b), 1, Pow2(b));
    q, rest := Shr(a, b), Low(a, b);
  }

  lemma WordBits(a: Word, b: Word, k: nat)
    ensures And(a, b) < U64 && Or(a, b) < U64
    ensures BitOf(And(a, b), k) == 1 <==> BitOf(a, k) == 1 && BitOf(b, k) == 1
    ensures BitOf(Or(a, b), k) == 1 <==> BitOf(a, k) == 1 || BitOf(b, k) == 1
  {
    assert Pow2(64) == U64 by { Pow2Values(); }
    AndBound(a, b);
    OrBound(a, b, 64);
    BitOfAnd(a, b, k);
    BitOfOr(a, b, k);
  }

  /** Bit by bit. */
  lemma FoldAndOr(a: Word, b: Word, k: nat) returns (both: Word, any: Word)
    ensures Fold(AndOp, a, b) == Number(both) && (BitOf(both, k) == 1 <==> BitOf(a, k) == 1 && BitOf(b, k) == 1)
    ensures Fold(OrOp, a, b) == Number(any) && (BitOf(any, k) == 1 <==> BitOf(a, k) == 1 || BitOf(b, k) == 1)
  {
    WordBits(a, b, k);
    FoldIs(AndOp, a, b);
    FoldIs(OrOp, a, b);
    both, any := And(a, b), Or(a, b);
  }

  // ----- how far folding goes -----

  /** What one simplify folds: a side of a node that was simplified before is not looked at
      again, so it has to be a number already. */
  predicate Folds(e: Expr) {
    || e.Number?
    || (e.Binary? && if e.simplified then e.lhs.Number? && e.rhs.Number? else Folds(e.lhs) && Folds(e.rhs))
  }

  /** An expression with a value folds to a number exactly in that case, and to its value. */
  lemma {:induction false} FoldsExactly(env: Env, e: Expr)
    requires Value(env, e).Some?
    ensures Simplify(e).Number? <==> Folds(e)
    ensures Folds(e) ==> Simplify(e) == Number(Value(env, e).value)
  {
    if e.Binary? && !e.simplified {
      FoldsExactly(env, e.lhs);
      FoldsExactly(env, e.rhs);
    }
  }

  /** Arithmetic on numbers, with any flags. */
  predicate Closed(e: Expr) { e.Number? || (e.Binary? && Closed(e.lhs) && Closed(e.rhs)) }

  /** With all flags clear. */
  predicate FreshClosed(e: Expr) {
    e.Number? || (e.Binary? && !e.simplified && FreshClosed(e.lhs) && FreshClosed(e.rhs))
  }

  /** One simplify folds constant arithmetic with clear flags. */
  lemma {:induction false} FoldsToNumber(env: Env, e: Expr)
    requires FreshClosed(e) && Value(env, e).Some?
    ensures Simplify(e) == Number(Value(env, e).value)
  {
    FreshFolds(e);
    FoldsExactly(env, e);
  }

  lemma {:induction false} FreshFolds(e: Expr)
    requires FreshClosed(e)
    ensures Folds(e)
  {
    if e.Binary? { FreshFolds(e.lhs); FreshFolds(e.rhs); }
  }

  lemma {:induction false} CopyFresh(e: Expr)
    requires Closed(e)
    ensures FreshClosed(Copy(e))
  {
    if e.Binary? { CopyFresh(e.lhs); CopyFresh(e.rhs); }
  }

  /** What one simplify leaves of constant arithmetic has clear flags. */
  lemma {:induction false} SimplifyFresh(env: Env, e: Expr)
    requires Closed(e) && Value(env, e).Some?
    ensures FreshClosed(Simplify(e))
  {
    SimplifySame(env, e);
    if e.Binary? {
      if !e.simplified {
        SimplifyFresh(env, e.lhs);
        SimplifyFresh(env, e.rhs);
        FreshIsClosed(Simplify(e.lhs));
        FreshIsClosed(Simplify(e.rhs));
      }
      CopyFresh(AfterSimplify(e));
    }
  }

  lemma {:induction false} FreshIsClosed(e: Expr)
    requires FreshClosed(e)
    ensures Closed(e)
  {
    if e.Binary? { FreshIsClosed(e.lhs); FreshIsClosed(e.rhs); }
  }

  /** So the flag delays folding by one call at most: the second simplify folds all constant
      arithmetic that has a value, whatever was rewritten before the first. */
  lemma SecondSimplifyFolds(env: Env, e: Expr)
    requires Closed(e) && Value(env, e).Some?
    ensures Simplify(Simplify(e)) == Number(Value(env, e).value)
  {
    SimplifyFresh(env, e);
    SimplifySame(env, e);
    FoldsToNumber(env, Simplify(e));
  }

  predicate ClosedArgs(args: Args) { args.Cons? ==> Closed(args.head) && ClosedArgs(args.tail) }

  function Numbers(vs: seq<nat>): Args { if vs == [] then Nil else Cons(Number(vs[0]), Numbers(vs[1..])) }

  lemma {:induction false} ArgsFold(env: Env, args: Args)
    requires ClosedArgs(args) && Values(env, args).Some?
    ensures SimplifyArgs(CopyArgs(args)) == Numbers(Values(env, args).value)
  {
    if args.Cons? {
      CopyFresh(args.head);
      CopySame(env, args.head);
      FoldsToNumber(env, Copy(args.head));
      ArgsFold(env, args.tail);
      var vs := Values(env, args).value;
      assert vs[1..] == Values(env, args.tail).value;
    }
  }

  /** The constant arguments of a call are numbers after it is simplified. */
  lemma CallFolds(env: Env, f: string, args: Args)
    requires ClosedArgs(args) && Values(env, args).Some?
    ensures Simplify(FCall(f, args)) == FCall(f, Numbers(Values(env, args).value))
  {
    ArgsFold(env, args);
  }

  /** Arithmetic on numbers and x, with clear flags. */
  predicate Over(e: Expr, x: string) {
    e.Number? || (e.Id? && e.name == x) || (e.Binary? && !e.simplified && Over(e.lhs, x) && Over(e.rhs, x))
  }

  lemma StillFolds(env: Env, e: Expr)
    requires Folds(e) && Value(env, e).Some?
    ensures Folds(AfterSimplify(e))
  {
    if e.Binary? && !e.simplified {
      FoldsExactly(env, e.lhs);
      FoldsExactly(env, e.rhs);
    }
  }

  lemma {:induction false} RewriteFolds(env: Env, e: Expr, x: string, new_: Expr, v: nat)
    requires Over(e, x) && Folds(new_) && Value(env, new_) == Some(v)
    ensures Folds(RewriteReplace(e, x, new_)) && Folds(Rewrite(e, x, new_).repl)
  {
    match e
    case Id(_) => FoldsExactly(env, new_); StillFolds(env, new_);
    case Binary(_, l, r, _) =>
      RewriteFolds(env, l, x, new_, v);
      RewriteSame(env, l, x, new_, v);
      RewriteFolds(env, r, x, Rewrite(l, x, new_).repl, v);
    case _ =>
  }

  /** Rewriting x by constant arithmetic and folding computes the expression, however often x
      occurs. */
  lemma RewriteThenFold(env: Env, e: Expr, x: string, new_: Expr, v: nat)
    requires Over(e, x) && Folds(new_) && Value(env, new_) == Some(v) && Value(Bind(env, x, v), e).Some?
    ensures Simplify(RewriteReplace(e, x, new_)) == Number(Value(Bind(env, x, v), e).value)
  {
    RewriteFolds(env, e, x, new_, v);
    RewriteSame(env, e, x, new_, v);
    FoldsExactly(env, RewriteReplace(e, x, new_));
  }
}
