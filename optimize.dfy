/**
 * The optimizer driver: the optimization-flag parser, the IR size measure,
 * one optimization round (`optimize`) and the bounded fixed-point loop of the
 * optimizer stage.  The passes other than the driver itself are parameters.
 */
module Optimize {
  import opened Bytes
  import opened Ir

  /** The stage gives up after this many rounds. */
  const MAX_ITER: nat := 100

  datatype OptFlag = FOLD | GOTO | INLINE | LOOP | PHI | SWITCH

  function AllFlags(): set<OptFlag> {
    {FOLD, GOTO, INLINE, LOOP, PHI, SWITCH}
  }

  /** `AllFlags` is the whole flag set, so complementing is relative to it. */
  lemma AllFlagsComplete(f: OptFlag)
    ensures f in AllFlags()
  {
    match f
    case FOLD =>
    case GOTO =>
    case INLINE =>
    case LOOP =>
    case PHI =>
    case SWITCH =>
  }

  // ---------------------------------------------------------------------
  // parse_optflags
  // ---------------------------------------------------------------------

  /** The letters the parser recognises. */
  predicate IsFlagLetter(b: byte) {
    b in {'f' as int, 'g' as int, 'i' as int, 'l' as int, 'p' as int, 's' as int, 'a' as int}
  }

  /** The flags one byte adds: its own flag for a flag letter, all of them for `a`. */
  function FlagsOf(b: byte): (s: set<OptFlag>)
    ensures s != {} <==> IsFlagLetter(b)
  {
    if b == 'f' as int then {FOLD}
    else if b == 'g' as int then {GOTO}
    else if b == 'i' as int then {INLINE}
    else if b == 'l' as int then {LOOP}
    else if b == 'p' as int then {PHI}
    else if b == 's' as int then {SWITCH}
    else if b == 'a' as int then AllFlags()
    else {}
  }

  /** The union of the flags of all bytes, accumulated from the left. */
  function Collect(flags: seq<byte>): set<OptFlag> {
    if flags == [] then {} else Collect(flags[..|flags| - 1]) + FlagsOf(flags[|flags| - 1])
  }

  predicate LeadingDash(flags: seq<byte>) {
    |flags| > 0 && flags[0] == '-' as int
  }

  /** What `parse_optflags` returns: the collected flags, complemented after a leading `-`. */
  function ParsedFlags(flags: seq<byte>): set<OptFlag> {
    if LeadingDash(flags) then AllFlags() - Collect(flags) else Collect(flags)
  }

  /** `parse_optflags`: one pass over the bytes, then the complement rule. */
  method ParseOptFlags(flags: seq<byte>) returns (oflg: set<OptFlag>)
    ensures oflg == ParsedFlags(flags)
  {
    oflg := {};
    for i := 0 to |flags|
      invariant oflg == Collect(flags[..i])
    {
      assert flags[..i + 1][..i] == flags[..i];
      oflg := oflg + FlagsOf(flags[i]);
    }
    assert flags[..|flags|] == flags;
    if |flags| > 0 && flags[0] == '-' as int {
      oflg := AllFlags() - oflg;
    }
  }

  /** A flag is collected exactly when some byte of the string adds it. */
  lemma {:induction false} CollectMembers(flags: seq<byte>, f: OptFlag)
    ensures f in Collect(flags) <==> exists i | 0 <= i < |flags| :: f in FlagsOf(flags[i])
  {
    if flags != [] {
      var init := flags[..|flags| - 1];
      CollectMembers(init, f);
      if f in Collect(init) {
        var i :| 0 <= i < |init| && f in FlagsOf(init[i]);
        assert flags[i] == init[i];
      }
      if exists i | 0 <= i < |flags| :: f in FlagsOf(flags[i]) {
        var i :| 0 <= i < |flags| && f in FlagsOf(flags[i]);
        if i < |init| {
          assert f in FlagsOf(init[i]);
        }
      }
    }
  }

  /**
   * The parse result in terms of membership: a flag is in it exactly when
   * some byte adds it, with the answer flipped after a leading `-`.
   */
  lemma ParsedMembers(flags: seq<byte>, f: OptFlag)
    ensures f in ParsedFlags(flags) <==>
      ((exists i | 0 <= i < |flags| :: f in FlagsOf(flags[i])) != LeadingDash(flags))
  {
    CollectMembers(flags, f);
    AllFlagsComplete(f);
  }

  /**
   * Order, repetition and bytes other than the flag letters do not matter:
   * two strings with the same flag letters, and the same answer to whether
   * they start with `-`, parse to the same set.
   */
  lemma ParsedDependsOnLetters(s: seq<byte>, t: seq<byte>)
    requires forall b | IsFlagLetter(b) :: b in s <==> b in t
    requires LeadingDash(s) == LeadingDash(t)
    ensures ParsedFlags(s) == ParsedFlags(t)
  {
    forall f: OptFlag
      ensures f in Collect(s) <==> f in Collect(t)
    {
      CollectMembers(s, f);
      CollectMembers(t, f);
      AddedByLetters(s, t, f);
      AddedByLetters(t, s, f);
    }
  }

  /** A flag some byte of `s` adds is added by a byte of `t` when `t` has the same flag letters. */
  lemma AddedByLetters(s: seq<byte>, t: seq<byte>, f: OptFlag)
    requires forall b | IsFlagLetter(b) :: b in s <==> b in t
    ensures (exists i | 0 <= i < |s| :: f in FlagsOf(s[i])) ==> exists j | 0 <= j < |t| :: f in FlagsOf(t[j])
  {
    if i :| 0 <= i < |s| && f in FlagsOf(s[i]) {
      assert IsFlagLetter(s[i]) && s[i] in s;
      var j :| 0 <= j < |t| && t[j] == s[i];
      assert f in FlagsOf(t[j]);
    }
  }

  /** The documented strings: each letter alone, `a`, `-` alone and `-a`. */
  lemma ParsedExamples()
    ensures ParsedFlags(['f' as int]) == {FOLD} && ParsedFlags(['g' as int]) == {GOTO}
    ensures ParsedFlags(['i' as int]) == {INLINE} && ParsedFlags(['l' as int]) == {LOOP}
    ensures ParsedFlags(['p' as int]) == {PHI} && ParsedFlags(['s' as int]) == {SWITCH}
    ensures ParsedFlags(['a' as int]) == AllFlags()
    ensures ParsedFlags(['-' as int]) == AllFlags()
    ensures ParsedFlags(['-' as int, 'a' as int]) == {}
    ensures ParsedFlags([]) == {}
  {
    CollectSingle('f' as int);
    CollectSingle('g' as int);
    CollectSingle('i' as int);
    CollectSingle('l' as int);
    CollectSingle('p' as int);
    CollectSingle('s' as int);
    CollectSingle('a' as int);
    CollectSingle('-' as int);
    assert ['-' as int, 'a' as int][..1] == ['-' as int];
  }

  lemma CollectSingle(b: byte)
    ensures Collect([b]) == FlagsOf(b)
  {
    assert [b][..0] == [];
  }

  // ---------------------------------------------------------------------
  // irsize
  // ---------------------------------------------------------------------

  /** The number of instructions of all functions together. */
  function CodeTotal(funcs: seq<Func>): nat {
    if funcs == [] then 0 else CodeTotal(funcs[..|funcs| - 1]) + |funcs[|funcs| - 1].code|
  }

  /** `irsize`: every instruction counts 1 and every function 37. */
  function IrSize(ir: IR): (n: nat)
    ensures n >= 37 * |ir.funcs|
  {
    CodeTotal(ir.funcs) + 37 * |ir.funcs|
  }

  /** The size of two lists of functions together is the sum of their sizes. */
  lemma {:induction false} IrSizeConcat(a: seq<Func>, b: seq<Func>)
    ensures IrSize(IR(a + b)) == IrSize(IR(a)) + IrSize(IR(b))
  {
    CodeTotalConcat(a, b);
  }

  lemma {:induction false} CodeTotalConcat(a: seq<Func>, b: seq<Func>)
    ensures CodeTotal(a + b) == CodeTotal(a) + CodeTotal(b)
  {
    if b != [] {
      assert (a + b)[..|a + b| - 1] == a + b[..|b| - 1];
      CodeTotalConcat(a, b[..|b| - 1]);
    } else {
      assert a + b == a;
    }
  }

  /** Replacing one function changes the size by the change in its code length. */
  lemma {:induction false} IrSizeUpdate(ir: IR, fid: FuncId, f: Func)
    requires fid < |ir.funcs|
    ensures IrSize(IR(ir.funcs[fid := f])) == IrSize(ir) - |ir.funcs[fid].code| + |f.code|
  {
    var (a, b) := (ir.funcs[..fid], ir.funcs[fid + 1..]);
    assert ir.funcs == a + [ir.funcs[fid]] + b;
    assert ir.funcs[fid := f] == a + [f] + b;
    CodeTotalConcat(a + [ir.funcs[fid]], b);
    CodeTotalConcat(a + [f], b);
    CodeTotalConcat(a, [ir.funcs[fid]]);
    CodeTotalConcat(a, [f]);
  }

  // ---------------------------------------------------------------------
  // optimize: one round of passes
  // ---------------------------------------------------------------------

  /** A pass invocation: the whole-IR inliner, or a per-function pass on one function. */
  datatype PassCall = InlineCall | FuncCall(flag: OptFlag, fid: FuncId)

  /** Where a per-function pass runs within one function's turn. */
  function Slot(p: OptFlag): nat {
    match p
    case FOLD => 0
    case SWITCH => 1
    case LOOP => 2
    case PHI => 3
    case GOTO => 4
    case INLINE => 5
  }

  /** `t` followed by a call of pass `p` on `fid` when `p` is enabled. */
  function Guarded(t: seq<PassCall>, flags: set<OptFlag>, p: OptFlag, fid: FuncId): seq<PassCall> {
    if p in flags then t + [FuncCall(p, fid)] else t
  }

  /** A guarded call adds the call of `p` on `fid` when `p` is enabled, and nothing else. */
  lemma GuardedMembers(t: seq<PassCall>, flags: set<OptFlag>, p: OptFlag, fid: FuncId)
    ensures forall c :: c in Guarded(t, flags, p, fid) <==> c in t || (p in flags && c == FuncCall(p, fid))
  {
  }

  /** Guarding after a prefix is guarding the suffix. */
  lemma GuardedAppend(log: seq<PassCall>, t: seq<PassCall>, flags: set<OptFlag>, p: OptFlag, fid: FuncId)
    ensures log + Guarded(t, flags, p, fid) == Guarded(log + t, flags, p, fid)
  {
    if p in flags {
      assert log + (t + [FuncCall(p, fid)]) == (log + t) + [FuncCall(p, fid)];
    }
  }

  /** The per-function passes in the order a function's turn runs them. */
  const TURN_ORDER: seq<OptFlag> := [FOLD, SWITCH, LOOP, PHI, GOTO]

  /** The calls of the first `k` passes of a function's turn, each when enabled. */
  function TurnUpTo(flags: set<OptFlag>, fid: FuncId, k: nat): seq<PassCall>
    requires k <= |TURN_ORDER|
  {
    if k == 0 then [] else Guarded(TurnUpTo(flags, fid, k - 1), flags, TURN_ORDER[k - 1], fid)
  }

  /** The calls of one function's turn: FOLD, SWITCH, LOOP, PHI, GOTO, each when enabled. */
  function FuncTurn(flags: set<OptFlag>, fid: FuncId): seq<PassCall> {
    TurnUpTo(flags, fid, |TURN_ORDER|)
  }

  /** The turns of functions `0 .. n-1`, in id order. */
  function Turns(flags: set<OptFlag>, n: nat): seq<PassCall> {
    if n == 0 then [] else Turns(flags, n - 1) + FuncTurn(flags, n - 1)
  }

  /** The calls of one round over `n` functions (`n` counted after inlining). */
  function Schedule(flags: set<OptFlag>, n: nat): seq<PassCall> {
    (if INLINE in flags then [InlineCall] else []) + Turns(flags, n)
  }

  /** `c` runs before `d` in round order: by function id, then by slot. */
  predicate Before(c: PassCall, d: PassCall)
    requires c.FuncCall? && d.FuncCall?
  {
    c.fid < d.fid || (c.fid == d.fid && Slot(c.flag) < Slot(d.flag))
  }

  /** Per-function calls on functions below `n`, each strictly before the next. */
  predicate InRoundOrder(t: seq<PassCall>, n: nat) {
    && (forall i | 0 <= i < |t| :: t[i].FuncCall? && t[i].fid < n)
    && (forall i, j | 0 <= i < j < |t| :: t[i].FuncCall? && t[j].FuncCall? && Before(t[i], t[j]))
  }

  /** A partial turn of `fid`: enabled passes on `fid` with slots strictly increasing and below `bound`. */
  predicate TurnBelow(t: seq<PassCall>, flags: set<OptFlag>, fid: FuncId, bound: nat) {
    && (forall i | 0 <= i < |t| ::
          t[i].FuncCall? && t[i].fid == fid && t[i].flag in flags && t[i].flag != INLINE && Slot(t[i].flag) < bound)
    && (forall i, j | 0 <= i < j < |t| :: t[i].FuncCall? && t[j].FuncCall? && Slot(t[i].flag) < Slot(t[j].flag))
  }

  /** Adding the next pass keeps a partial turn ordered. */
  lemma GuardedBelow(t: seq<PassCall>, flags: set<OptFlag>, p: OptFlag, fid: FuncId)
    requires p != INLINE && TurnBelow(t, flags, fid, Slot(p))
    ensures TurnBelow(Guarded(t, flags, p, fid), flags, fid, Slot(p) + 1)
  {
    if p in flags {
      var t' := t + [FuncCall(p, fid)];
      assert forall i | 0 <= i < |t| :: t'[i] == t[i];
    }
  }

  /** The turn order lists each per-function pass at its slot. */
  lemma TurnOrderSlots()
    ensures forall i | 0 <= i < |TURN_ORDER| :: Slot(TURN_ORDER[i]) == i && TURN_ORDER[i] != INLINE
  {
  }

  /** The first `k` passes of a turn are exactly the enabled passes with slots below `k`. */
  lemma {:induction false} TurnUpToMembers(flags: set<OptFlag>, fid: FuncId, k: nat)
    requires k <= |TURN_ORDER|
    ensures forall c: PassCall :: c in TurnUpTo(flags, fid, k) <==>
              c.FuncCall? && c.fid == fid && c.flag in flags && c.flag != INLINE && Slot(c.flag) < k
  {
    if k > 0 {
      TurnUpToMembers(flags, fid, k - 1);
      GuardedMembers(TurnUpTo(flags, fid, k - 1), flags, TURN_ORDER[k - 1], fid);
      TurnOrderSlots();
      forall c: PassCall | c.FuncCall? && c.fid == fid && c.flag in flags && c.flag != INLINE && Slot(c.flag) == k - 1
        ensures c == FuncCall(TURN_ORDER[k - 1], fid)
      {
        match c.flag
        case FOLD =>
        case SWITCH =>
        case LOOP =>
        case PHI =>
        case GOTO =>
      }
    }
  }

  /**
   * One function's turn runs exactly its enabled per-function passes, on
   * that function.
   */
  lemma FuncTurnShape(flags: set<OptFlag>, fid: FuncId)
    ensures forall c: PassCall :: c in FuncTurn(flags, fid) <==>
              c.FuncCall? && c.fid == fid && c.flag in flags && c.flag != INLINE
  {
    TurnUpToMembers(flags, fid, |TURN_ORDER|);
    forall c: PassCall | c.FuncCall? && c.flag != INLINE
      ensures Slot(c.flag) < |TURN_ORDER|
    {
    }
  }

  /** The first `k` passes of a turn run in slot order. */
  lemma {:induction false} TurnUpToOrdered(flags: set<OptFlag>, fid: FuncId, k: nat)
    requires k <= |TURN_ORDER|
    ensures TurnBelow(TurnUpTo(flags, fid, k), flags, fid, k)
  {
    if k > 0 {
      TurnUpToOrdered(flags, fid, k - 1);
      TurnOrderSlots();
      GuardedBelow(TurnUpTo(flags, fid, k - 1), flags, TURN_ORDER[k - 1], fid);
    }
  }

  /**
   * The turns over `n` functions run exactly the enabled per-function passes
   * on the functions below `n`.
   */
  lemma {:induction false} TurnsMembers(flags: set<OptFlag>, n: nat)
    ensures forall c: PassCall :: c in Turns(flags, n) <==>
              c.FuncCall? && c.fid < n && c.flag in flags && c.flag != INLINE
  {
    if n > 0 {
      TurnsMembers(flags, n - 1);
      FuncTurnShape(flags, n - 1);
    }
  }

  /** The turns over `n` functions come in strict round order, so no call repeats. */
  lemma {:induction false} TurnsOrdered(flags: set<OptFlag>, n: nat)
    ensures InRoundOrder(Turns(flags, n), n)
  {
    if n > 0 {
      TurnsOrdered(flags, n - 1);
      ConcatOrdered(Turns(flags, n - 1), flags, n - 1);
      assert Turns(flags, n) == Turns(flags, n - 1) + FuncTurn(flags, n - 1);
    }
  }

  /** Ordered calls on functions below `fid`, then a turn of `fid`, are in order. */
  lemma ConcatOrdered(a: seq<PassCall>, flags: set<OptFlag>, fid: FuncId)
    requires InRoundOrder(a, fid)
    ensures InRoundOrder(a + FuncTurn(flags, fid), fid + 1)
  {
    var b := FuncTurn(flags, fid);
    TurnUpToOrdered(flags, fid, |TURN_ORDER|);
    assert forall i | 0 <= i < |a| :: (a + b)[i] == a[i];
    assert forall j | |a| <= j < |a + b| :: (a + b)[j] == b[j - |a|];
  }

  /**
   * A round runs the inliner exactly when INLINE is set, and then first and
   * only once; all other calls are the turns of the functions.
   */
  lemma ScheduleShape(flags: set<OptFlag>, n: nat)
    ensures var s := Schedule(flags, n);
            && (InlineCall in s <==> INLINE in flags)
            && (INLINE in flags ==> s[0] == InlineCall && s[1..] == Turns(flags, n))
            && (INLINE !in flags ==> s == Turns(flags, n))
  {
    TurnsMembers(flags, n);
  }

  /** The IR after the calls `calls`, made one after the other. */
  function Apply(ir: IR, calls: seq<PassCall>, inline: IR -> IR, pass: (OptFlag, FuncId, IR) -> IR): IR {
    if calls == [] then ir
    else
      var ir' := Apply(ir, calls[..|calls| - 1], inline, pass);
      match calls[|calls| - 1]
      case InlineCall => inline(ir')
      case FuncCall(p, fid) => pass(p, fid, ir')
  }

  /** The IR after one round. */
  function Round(ir: IR, flags: set<OptFlag>, inline: IR -> IR, pass: (OptFlag, FuncId, IR) -> IR): IR {
    var n := |(if INLINE in flags then inline(ir) else ir).funcs|;
    Apply(ir, Schedule(flags, n), inline, pass)
  }

  /**
   * `optimize`: the inliner when enabled, then every function (as many as
   * there are after inlining) in id order, each through its enabled passes.
   * `inline` and `pass` stand for the passes themselves; `log` lists the
   * calls made.
   */
  method OptimizeRound(ir: IR, flags: set<OptFlag>, inline: IR -> IR, pass: (OptFlag, FuncId, IR) -> IR)
    returns (ir': IR, log: seq<PassCall>)
    ensures log == Schedule(flags, |(if INLINE in flags then inline(ir) else ir).funcs|)
    ensures ir' == Apply(ir, log, inline, pass) == Round(ir, flags, inline, pass)
  {
    ir', log := ir, [];
    if INLINE in flags {
      ir', log := inline(ir'), [InlineCall];
      assert log[..0] == [];
    }
    var pre := log;
    var n := |ir'.funcs|;
    for fid := 0 to n
      invariant log == pre + Turns(flags, fid)
      invariant ir' == Apply(ir, log, inline, pass)
    {
      ir', log := RunTurn(ir, ir', log, flags, fid, inline, pass);
      TurnsStep(pre, flags, fid);
    }
  }

  lemma TurnsStep(pre: seq<PassCall>, flags: set<OptFlag>, fid: FuncId)
    ensures pre + Turns(flags, fid) + FuncTurn(flags, fid) == pre + Turns(flags, fid + 1)
  {
  }

  /** The body of `optimize`'s loop: one function's turn through the enabled passes, in order. */
  method RunTurn(ir: IR, cur: IR, log: seq<PassCall>, flags: set<OptFlag>, fid: FuncId,
                 inline: IR -> IR, pass: (OptFlag, FuncId, IR) -> IR)
    returns (next: IR, log': seq<PassCall>)
    requires cur == Apply(ir, log, inline, pass)
    ensures log' == log + FuncTurn(flags, fid) && next == Apply(ir, log', inline, pass)
  {
    next, log' := cur, log;
    assert log' == log + TurnUpTo(flags, fid, 0);
    if FOLD in flags {
      next, log' := Step(ir, next, log', FuncCall(FOLD, fid), inline, pass);
    }
    TurnStep(log, flags, fid, 0);
    if SWITCH in flags {
      next, log' := Step(ir, next, log', FuncCall(SWITCH, fid), inline, pass);
    }
    TurnStep(log, flags, fid, 1);
    if LOOP in flags {
      next, log' := Step(ir, next, log', FuncCall(LOOP, fid), inline, pass);
    }
    TurnStep(log, flags, fid, 2);
    if PHI in flags {
      next, log' := Step(ir, next, log', FuncCall(PHI, fid), inline, pass);
    }
    TurnStep(log, flags, fid, 3);
    if GOTO in flags {
      next, log' := Step(ir, next, log', FuncCall(GOTO, fid), inline, pass);
    }
    TurnStep(log, flags, fid, 4);
  }

  /** After the first `k` passes of a turn, the next one is guarded by its flag. */
  lemma TurnStep(log: seq<PassCall>, flags: set<OptFlag>, fid: FuncId, k: nat)
    requires k < |TURN_ORDER|
    ensures log + TurnUpTo(flags, fid, k + 1) == Guarded(log + TurnUpTo(flags, fid, k), flags, TURN_ORDER[k], fid)
  {
    GuardedAppend(log, TurnUpTo(flags, fid, k), flags, TURN_ORDER[k], fid);
  }

  /** One per-function pass call, logged. */
  method Step(ir: IR, cur: IR, log: seq<PassCall>, c: PassCall, inline: IR -> IR, pass: (OptFlag, FuncId, IR) -> IR)
    returns (next: IR, log': seq<PassCall>)
    requires c.FuncCall? && cur == Apply(ir, log, inline, pass)
    ensures log' == log + [c] && next == Apply(ir, log', inline, pass)
  {
    next := pass(c.flag, c.fid, cur);
    log' := log + [c];
    assert log'[..|log|] == log;
  }

  // ---------------------------------------------------------------------
  // Stage::run
  // ---------------------------------------------------------------------

  /** The IR after `k` rounds. */
  function Iterate(ir: IR, flags: set<OptFlag>, inline: IR -> IR, pass: (OptFlag, FuncId, IR) -> IR, k: nat): IR {
    if k == 0 then ir else Round(Iterate(ir, flags, inline, pass, k - 1), flags, inline, pass)
  }

  /**
   * `Stage::run`: rounds until one leaves `irsize` unchanged, at most
   * `MAX_ITER` of them.  `iters` is the number of rounds run: at least one,
   * every round before the last changed the size, and stopping early means
   * the last round left it unchanged.
   */
  method RunStage(ir: IR, flags: set<OptFlag>, inline: IR -> IR, pass: (OptFlag, FuncId, IR) -> IR)
    returns (ir': IR, iters: nat)
    ensures 1 <= iters <= MAX_ITER
    ensures ir' == Iterate(ir, flags, inline, pass, iters)
    ensures forall k | 0 < k < iters ::
              IrSize(Iterate(ir, flags, inline, pass, k)) != IrSize(Iterate(ir, flags, inline, pass, k - 1))
    ensures iters < MAX_ITER ==>
              IrSize(Iterate(ir, flags, inline, pass, iters)) == IrSize(Iterate(ir, flags, inline, pass, iters - 1))
  {
    var size := IrSize(ir);
    ir', iters := ir, 0;
    for i := 0 to MAX_ITER
      invariant iters == i && ir' == Iterate(ir, flags, inline, pass, i) && size == IrSize(ir')
      invariant forall k | 0 < k <= i ::
                  IrSize(Iterate(ir, flags, inline, pass, k)) != IrSize(Iterate(ir, flags, inline, pass, k - 1))
    {
      var calls;
      ir', calls := OptimizeRound(ir', flags, inline, pass);
      iters := i + 1;
      var newsize := IrSize(ir');
      if size == newsize {
        break;
      }
      size := newsize;
    }
  }
}
