/**
 The block transform of MD5 over an arbitrary kind of word.  `CodeRun` executes the 64 lines of
 `md5_process` on four named registers; `RfcRun` is the schedule of section 3.4 of RFC 1321, in which
 the four words change roles after each operation.
 */
module Md5Program {
  import opened Bytes

  /** The operations on words that MD5 is made of; `word` is an integer constant as a word. */
  datatype WordOps<!W> = WordOps(
    f: (W, W, W) -> W,
    g: (W, W, W) -> W,
    h: (W, W, W) -> W,
    i: (W, W, W) -> W,
    add: (W, W) -> W,
    rotate: (W, nat) -> W,
    word: int -> W)

  function Mix<W>(ops: WordOps<W>, round: nat, x: W, y: W, z: W): W {
    if round == 0 then ops.f(x, y, z)
    else if round == 1 then ops.g(x, y, z)
    else if round == 2 then ops.h(x, y, z)
    else ops.i(x, y, z)
  }

  /** The macro `P`, or one operation of the RFC: ((a + (F(b,c,d) + X[k] + T[i])) <<< s) + b. */
  function Step<W>(ops: WordOps<W>, round: nat, a: W, b: W, c: W, d: W, x: W, s: nat, t: int): W {
    ops.add(ops.rotate(ops.add(a, ops.add(ops.add(Mix(ops, round, b, c, d), x), ops.word(t))), s), b)
  }

  // ----- the code -----

  const A: nat := 0
  const B: nat := 1
  const C: nat := 2
  const D: nat := 3

  /** One use of the macro `P`: four registers, an index into the block, a shift and a constant. */
  datatype Line = P(a: nat, b: nat, c: nat, d: nat, k: nat, s: nat, t: int)

  predicate ValidLine(line: Line) {
    line.a < 4 && line.b < 4 && line.c < 4 && line.d < 4 && line.k < 16 && 0 <= line.t < INT32_SPAN
  }

  predicate ValidLines(lines: seq<Line>) {
    |lines| == 64 && forall i :: 0 <= i < 64 ==> ValidLine(lines[i])
  }

  function Exec<W>(ops: WordOps<W>, round: nat, line: Line, regs: seq<W>, x: seq<W>): (r: seq<W>)
    requires ValidLine(line) && |regs| == 4 && |x| == 16
    ensures |r| == 4
  {
    regs[line.a := Step(ops, round, regs[line.a], regs[line.b], regs[line.c], regs[line.d], x[line.k], line.s, line.t)]
  }

  /** The registers after the first `n` lines; each round of 16 lines has its own `F`. */
  function CodeRun<W>(ops: WordOps<W>, lines: seq<Line>, regs: seq<W>, x: seq<W>, n: nat): (r: seq<W>)
    requires ValidLines(lines) && |regs| == 4 && |x| == 16 && n <= 64
    ensures |r| == 4
  {
    if n == 0 then regs else
    Exec(ops, (n - 1) / 16, lines[n - 1], CodeRun(ops, lines, regs, x, n - 1), x)
  }

  // ----- the RFC -----

  datatype State<+W> = State(a: W, b: W, c: W, d: W)

  /** The index into the block that operation `i` uses. */
  function K(i: nat): (k: nat)
    ensures k < 16
  {
    if i < 16 then i % 16
    else if i < 32 then (5 * i + 1) % 16
    else if i < 48 then (3 * i + 5) % 16
    else (7 * i) % 16
  }

  function Pick(i: nat, s0: nat, s1: nat, s2: nat, s3: nat): nat {
    if i % 4 == 0 then s0 else if i % 4 == 1 then s1 else if i % 4 == 2 then s2 else s3
  }

  /** The rotation of operation `i`. */
  function Shift(i: nat): nat {
    if i < 16 then Pick(i, 7, 12, 17, 22)
    else if i < 32 then Pick(i, 5, 9, 14, 20)
    else if i < 48 then Pick(i, 4, 11, 16, 23)
    else Pick(i, 6, 10, 15, 21)
  }

  function RfcRun<W>(ops: WordOps<W>, sine: seq<int>, s: State<W>, x: seq<W>, n: nat): State<W>
    requires |sine| == 64 && |x| == 16 && n <= 64
  {
    if n == 0 then s else
    var p := RfcRun(ops, sine, s, x, n - 1);
    State(p.d, Step(ops, (n - 1) / 16, p.a, p.b, p.c, p.d, x[K(n - 1)], Shift(n - 1), sine[n - 1]), p.b, p.c)
  }

  // ----- the code follows the RFC's schedule -----

  /** The register that has the role of `a` in operation `i`. */
  function RoleA(i: nat): (r: nat)
    ensures r < 4
  {
    (4 - i % 4) % 4
  }

  /** The word in role `a`, `b`, `c` and `d` before operation `i`. */
  function Roles<W>(regs: seq<W>, i: nat): State<W>
    requires |regs| == 4
  {
    var a := RoleA(i);
    State(regs[a], regs[(a + 1) % 4], regs[(a + 2) % 4], regs[(a + 3) % 4])
  }

  /** Line `i` is the RFC's operation `i`, with the constant `t`. */
  predicate Scheduled(line: Line, i: nat, t: int) {
    var a := RoleA(i);
    line.a == a && line.b == (a + 1) % 4 && line.c == (a + 2) % 4 && line.d == (a + 3) % 4
    && line.k == K(i) && line.s == Shift(i) && line.t == t
  }

  predicate FollowsSchedule(lines: seq<Line>, sine: seq<int>) {
    |lines| == |sine| == 64 && forall i :: 0 <= i < 64 ==> Scheduled(lines[i], i, sine[i])
  }

  /** One line does one operation and hands the roles on. */
  lemma RolesMove<W>(ops: WordOps<W>, line: Line, regs: seq<W>, x: seq<W>, i: nat)
    requires ValidLine(line) && Scheduled(line, i, line.t) && |regs| == 4 && |x| == 16
    ensures var p := Roles(regs, i);
      Roles(Exec(ops, i / 16, line, regs, x), i + 1)
      == State(p.d, Step(ops, i / 16, p.a, p.b, p.c, p.d, x[K(i)], Shift(i), line.t), p.b, p.c)
  {
    assert RoleA(i + 1) == (RoleA(i) + 3) % 4;
    hide RoleA, K, Shift, Step;
  }

  lemma {:induction false} CodeFollowsRfc<W>(ops: WordOps<W>, lines: seq<Line>, sine: seq<int>, regs: seq<W>,
                                             x: seq<W>, n: nat)
    requires ValidLines(lines) && FollowsSchedule(lines, sine) && |regs| == 4 && |x| == 16 && n <= 64
    ensures Roles(CodeRun(ops, lines, regs, x, n), n) == RfcRun(ops, sine, Roles(regs, 0), x, n)
  {
    if n == 0 {
    } else {
      CodeFollowsRfc(ops, lines, sine, regs, x, n - 1);
      RolesMove(ops, lines[n - 1], CodeRun(ops, lines, regs, x, n - 1), x, n - 1);
    }
  }

  // ----- words of different widths -----

  ghost predicate RespectsMix<V(!new), W(!new)>(low: V -> W, f: (V, V, V) -> V, g: (W, W, W) -> W) {
    forall x, y, z :: low(f(x, y, z)) == g(low(x), low(y), low(z))
  }

  ghost predicate RespectsAdd<V(!new), W(!new)>(low: V -> W, f: (V, V) -> V, g: (W, W) -> W) {
    forall x, y :: low(f(x, y)) == g(low(x), low(y))
  }

  ghost predicate RespectsRotate<V(!new), W(!new)>(low: V -> W, f: (V, nat) -> V, g: (W, nat) -> W) {
    forall x, n: nat :: low(f(x, n)) == g(low(x), n)
  }

  ghost predicate RespectsWord<V(!new), W(!new)>(low: V -> W, f: int -> V, g: int -> W) {
    forall n :: 0 <= n < INT32_SPAN ==> low(f(n)) == g(n)
  }

  /** Every operation can be done before or after going from `V` to `W`. */
  ghost predicate Respects<V(!new), W(!new)>(low: V -> W, p: WordOps<V>, q: WordOps<W>) {
    && RespectsMix(low, p.f, q.f) && RespectsMix(low, p.g, q.g)
    && RespectsMix(low, p.h, q.h) && RespectsMix(low, p.i, q.i)
    && RespectsAdd(low, p.add, q.add) && RespectsRotate(low, p.rotate, q.rotate)
    && RespectsWord(low, p.word, q.word)
  }

  lemma StepRespects<V(!new), W(!new)>(low: V -> W, p: WordOps<V>, q: WordOps<W>, round: nat,
                                       a: V, b: V, c: V, d: V, x: V, s: nat, t: int)
    requires Respects(low, p, q) && 0 <= t < INT32_SPAN
    ensures low(Step(p, round, a, b, c, d, x, s, t)) == Step(q, round, low(a), low(b), low(c), low(d), low(x), s, t)
  {
    var f := Mix(p, round, b, c, d);
    assert low(f) == Mix(q, round, low(b), low(c), low(d));
    assert low(p.add(p.add(f, x), p.word(t))) == q.add(q.add(low(f), low(x)), q.word(t));
  }

  /** `ws` is `vs` with every word narrowed. */
  predicate Narrowed<V, W(==)>(low: V -> W, vs: seq<V>, ws: seq<W>) {
    |vs| == |ws| && forall i :: 0 <= i < |vs| ==> low(vs[i]) == ws[i]
  }

  lemma {:induction false} CodeRunRespects<V(!new), W(!new)>(
    low: V -> W, p: WordOps<V>, q: WordOps<W>, lines: seq<Line>,
    regs: seq<V>, nregs: seq<W>, x: seq<V>, nx: seq<W>, n: nat)
    requires Respects(low, p, q) && ValidLines(lines) && n <= 64
    requires |regs| == 4 && |x| == 16 && Narrowed(low, regs, nregs) && Narrowed(low, x, nx)
    ensures Narrowed(low, CodeRun(p, lines, regs, x, n), CodeRun(q, lines, nregs, nx, n))
  {
    if n == 0 {
    } else {
      CodeRunRespects(low, p, q, lines, regs, nregs, x, nx, n - 1);
      var l, r := lines[n - 1], CodeRun(p, lines, regs, x, n - 1);
      assert ValidLine(l);
      StepRespects(low, p, q, (n - 1) / 16, r[l.a], r[l.b], r[l.c], r[l.d], x[l.k], l.s, l.t);
    }
  }

  // ----- whole blocks -----

  function Registers<W>(s: State<W>): (r: seq<W>)
    ensures |r| == 4
  {
    [s.a, s.b, s.c, s.d]
  }

  function AddStates<W>(ops: WordOps<W>, s: State<W>, r: State<W>): State<W> {
    State(ops.add(s.a, r.a), ops.add(s.b, r.b), ops.add(s.c, r.c), ops.add(s.d, r.d))
  }

  /** `md5_process` on words already extracted from the block. */
  function CodeBlock<W>(ops: WordOps<W>, lines: seq<Line>, s: State<W>, x: seq<W>): State<W>
    requires ValidLines(lines) && |x| == 16
  {
    var r := CodeRun(ops, lines, Registers(s), x, 64);
    AddStates(ops, s, State(r[A], r[B], r[C], r[D]))
  }

  function RfcBlock<W>(ops: WordOps<W>, sine: seq<int>, s: State<W>, x: seq<W>): State<W>
    requires |sine| == 64 && |x| == 16
  {
    AddStates(ops, s, RfcRun(ops, sine, s, x, 64))
  }

  function MapState<V, W>(low: V -> W, s: State<V>): State<W> {
    State(low(s.a), low(s.b), low(s.c), low(s.d))
  }

  lemma RolesOfNarrowed<V, W>(low: V -> W, vs: seq<V>, ws: seq<W>, n: nat)
    requires |vs| == 4 && Narrowed(low, vs, ws)
    ensures MapState(low, Roles(vs, n)) == Roles(ws, n)
  {
  }

  /** After any number of lines the narrowed registers are the RFC's words, each in its role. */
  lemma RegistersFollowRfc<V(!new), W(!new)>(low: V -> W, p: WordOps<V>, q: WordOps<W>, lines: seq<Line>,
                                             sine: seq<int>, s: State<V>, x: seq<V>, nx: seq<W>, n: nat)
    requires Respects(low, p, q) && ValidLines(lines) && FollowsSchedule(lines, sine) && n <= 64
    requires |x| == 16 && Narrowed(low, x, nx)
    ensures MapState(low, Roles(CodeRun(p, lines, Registers(s), x, n), n))
         == RfcRun(q, sine, MapState(low, s), nx, n)
  {
    var t := MapState(low, s);
    var regs, nregs := Registers(s), Registers(t);
    var r, nr := CodeRun(p, lines, regs, x, n), CodeRun(q, lines, nregs, nx, n);
    assert Narrowed(low, r, nr) by {
      CodeRunRespects(low, p, q, lines, regs, nregs, x, nx, n);
    }
    assert MapState(low, Roles(r, n)) == Roles(nr, n) by {
      RolesOfNarrowed(low, r, nr, n);
    }
    RunFromRegisters(q, lines, sine, t, nx, n);
  }

  lemma RunFromRegisters<W>(ops: WordOps<W>, lines: seq<Line>, sine: seq<int>, s: State<W>, x: seq<W>, n: nat)
    requires ValidLines(lines) && FollowsSchedule(lines, sine) && |x| == 16 && n <= 64
    ensures Roles(CodeRun(ops, lines, Registers(s), x, n), n) == RfcRun(ops, sine, s, x, n)
  {
    assert Roles(Registers(s), 0) == s;
    CodeFollowsRfc(ops, lines, sine, Registers(s), x, n);
  }

  lemma BlockFollowsRfc<V(!new), W(!new)>(low: V -> W, p: WordOps<V>, q: WordOps<W>, lines: seq<Line>,
                                          sine: seq<int>, s: State<V>, x: seq<V>, nx: seq<W>)
    requires Respects(low, p, q) && ValidLines(lines) && FollowsSchedule(lines, sine)
    requires |x| == 16 && Narrowed(low, x, nx)
    ensures MapState(low, CodeBlock(p, lines, s, x)) == RfcBlock(q, sine, MapState(low, s), nx)
  {
    var r := CodeRun(p, lines, Registers(s), x, 64);
    RegistersFollowRfc(low, p, q, lines, sine, s, x, nx, 64);
    RolesAtEnd(r);
    AddStatesRespects(low, p, q, s, Roles(r, 64));
  }

  lemma RolesAtEnd<W>(r: seq<W>)
    requires |r| == 4
    ensures Roles(r, 64) == State(r[A], r[B], r[C], r[D])
  {
  }

  lemma AddStatesRespects<V(!new), W(!new)>(low: V -> W, p: WordOps<V>, q: WordOps<W>, s: State<V>, r: State<V>)
    requires Respects(low, p, q)
    ensures MapState(low, AddStates(p, s, r)) == AddStates(q, MapState(low, s), MapState(low, r))
  {
  }
}
