/**
 * The driver of the fold pass (`Fold`): the memo table, worklist, CSE table
 * and output buffer, and `visit`, `fixup` and `run` over them.  Both this
 * module and `OptFold` model one source file.  The class is kept apart from
 * the rewrite rules, the pass-state invariant and its lemmas, which are pure
 * definitions, so that the methods are verified against them without their
 * proofs in scope.
 */
module FoldPass {
  import opened Ir
  import opened OptFold

  /**
   * The pass's working state for one function (`Fold`): the memo table from
   * old to new ids, the worklist of control targets still to visit, the CSE
   * table, and the new code; beside them, the constant interner the pass
   * shares with the rest of the compiler.
   */
  class Fold {
    var oldNew: map<InsId, InsId>
    var next: seq<InsId>
    var cseMap: map<Ins, InsId>
    var code: seq<Ins>
    var intern: Interner

    /** `Fold::new`: empty state over the compiler's interner. */
    constructor (intern: Interner)
      ensures oldNew == map[] && next == [] && cseMap == map[] && code == []
      ensures this.intern == intern
    {
      oldNew, next, cseMap, code := map[], [], map[], [];
      this.intern := intern;
    }

    /**
     * The pass's invariant while `func` is being folded: the shape of the
     * state (`StateOk`) and the faithfulness of the memo table (`MemoOk`).
     */
    ghost predicate Valid(func: Func)
      reads this
    {
      StateOk(func, oldNew, next, cseMap, code, intern) && MemoOk(func, oldNew, code, intern)
    }

    /**
     * `visit`: the new id of old instruction `id`.  A later visit returns
     * the recorded id and changes nothing; the first is `VisitFresh`.
     */
    method Visit(func: Func, ghost rank: seq<nat>, id: InsId) returns (r: InsId)
      requires FuncOk(func, rank) && Valid(func) && id < |func.code|
      requires Reachable(func, id) && AllReachable(func, oldNew, next)
      modifies this
      decreases rank[id], 2
      ensures Valid(func) && AllReachable(func, oldNew, next)
      ensures id in oldNew && r == oldNew[id] && Landed(func, oldNew, code, intern, id)
      ensures Extends(old(oldNew), oldNew) && AddedRanks(old(oldNew), oldNew, rank, rank[id])
      ensures AddedFrom(func, old(oldNew), oldNew, id)
      ensures old(code) <= code && old(next) <= next && old(intern.vals) <= intern.vals
      ensures next == old(next) + Targets(code[|old(code)|..])
      ensures AppendedQueued(code, |old(code)|, next)
      ensures id in old(oldNew) ==>
                oldNew == old(oldNew) && code == old(code) && next == old(next)
                && cseMap == old(cseMap) && intern == old(intern)
    {
      if id in oldNew {
        assert code[|code|..] == [];
        return oldNew[id];
      }
      r := VisitFresh(func, rank, id);
    }

    /**
     * The first visit of `id`: rewrite the operands to new ids, fold, emit
     * (or find through CSE) the result, queue the control targets of an
     * emitted control instruction, and record the new id.
     */
    method VisitFresh(func: Func, ghost rank: seq<nat>, id: InsId) returns (r: InsId)
      requires FuncOk(func, rank) && Valid(func) && id < |func.code| && id !in oldNew
      requires Reachable(func, id) && AllReachable(func, oldNew, next)
      modifies this
      decreases rank[id], 1
      ensures Valid(func) && AllReachable(func, oldNew, next)
      ensures id in oldNew && r == oldNew[id] && Landed(func, oldNew, code, intern, id)
      ensures Extends(old(oldNew), oldNew) && AddedRanks(old(oldNew), oldNew, rank, rank[id])
      ensures AddedFrom(func, old(oldNew), oldNew, id)
      ensures old(code) <= code && old(next) <= next && old(intern.vals) <= intern.vals
      ensures next == old(next) + Targets(code[|old(code)|..])
      ensures AppendedQueued(code, |old(code)|, next)
    {
      ghost var (oldNew0, code0, next0) := (oldNew, code, next);
      var ins := VisitOperands(func, rank, id);
      ghost var (oldNew1, code1, next1) := (oldNew, code, next);
      OperandsFoldable(func, oldNew, next, cseMap, code, intern, id);
      r := FoldAndRecord(func, id, ins);
      assert Extends(oldNew1, oldNew) && AddedRanks(oldNew1, oldNew, rank, rank[id]);
      ExtendsTrans(oldNew0, oldNew1, oldNew, rank, rank[id]);
      AddedSelf(func, oldNew0, oldNew1, id, r);
      QueuedTrans(code0, code1, code, next1, next);
      TargetsTrans(code0, code1, code, next0, next1, next);
    }

    /**
     * The rest of `visit` once the operands of `func.code[id]` have new ids
     * (`ins` is the instruction with its operands mapped): fold, refolding
     * after a swap, then emit or resolve the result and record it for `id`.
     */
    method FoldAndRecord(func: Func, id: InsId, ins: Ins) returns (r: InsId)
      requires Valid(func) && id < |func.code| && id !in oldNew
      requires ControlsBelow(func.code[id], |func.code|)
      requires InputsIn(func.code[id], oldNew) && ins == MapInputs(func.code[id], oldNew)
      requires FoldPre(code, intern, ins)
      requires Reachable(func, id) && AllReachable(func, oldNew, next)
      modifies this
      ensures Valid(func) && AllReachable(func, oldNew, next)
      ensures oldNew == old(oldNew)[id := r] && Landed(func, oldNew, code, intern, id)
      ensures var (st, kt) := Refolded(old(code), old(intern), ins);
        && intern == kt
        && (st.New? ==> r == st.id && code == old(code) && next == old(next) && cseMap == old(cseMap))
        && (st.Done? ==> code[r] == st.ins
                         && next == old(next) + (if IsControl(st.ins.op) then st.ins.controls else []))
      ensures old(code) <= code && old(next) <= next && old(intern.vals) <= intern.vals
      ensures next == old(next) + Targets(code[|old(code)|..])
      ensures AppendedQueued(code, |old(code)|, next)
    {
      var st, kt := Refold(code, intern, ins);
      RefoldStable(code, intern, kt, ins);
      GrowInternOk(func, oldNew, next, cseMap, code, intern, kt);
      MemoGrowIntern(func, oldNew, code, intern, kt);
      intern := kt;
      ghost var (oldNew0, next0, code0, cseMap0) := (oldNew, next, code, cseMap);
      r := Record(func, id, st);
      assert ins.controls == func.code[id].controls;
      RecordReach(func, id, st, oldNew0, next0, code0, cseMap0, oldNew, next, code, r);
    }

    /** The operand loop of `visit`: `func.code[id]` with its operands rewritten to new ids. */
    method VisitOperands(func: Func, ghost rank: seq<nat>, id: InsId) returns (ins: Ins)
      requires FuncOk(func, rank) && Valid(func) && id < |func.code| && id !in oldNew
      requires Reachable(func, id) && AllReachable(func, oldNew, next)
      modifies this
      decreases rank[id], 0
      ensures Valid(func) && AllReachable(func, oldNew, next) && id !in oldNew
      ensures InputsIn(func.code[id], oldNew) && ins == MapInputs(func.code[id], oldNew)
      ensures Extends(old(oldNew), oldNew) && AddedRanks(old(oldNew), oldNew, rank, rank[id] as int - 1)
      ensures AddedFrom(func, old(oldNew), oldNew, id)
      ensures old(code) <= code && old(intern.vals) <= intern.vals
      ensures next == old(next) + Targets(code[|old(code)|..])
      ensures AppendedQueued(code, |old(code)|, next)
    {
      ins := func.code[id];
      assert code[|code|..] == [];
      var j := 0;
      while j < |ins.inputs|
        invariant MappedUpTo(func.code[id], ins, oldNew, j)
        invariant Valid(func) && AllReachable(func, oldNew, next) && id !in oldNew
        invariant Extends(old(oldNew), oldNew) && AddedRanks(old(oldNew), oldNew, rank, rank[id] as int - 1)
        invariant AddedFrom(func, old(oldNew), oldNew, id)
        invariant old(code) <= code && old(intern.vals) <= intern.vals
        invariant next == old(next) + Targets(code[|old(code)|..])
        invariant AppendedQueued(code, |old(code)|, next)
      {
        ghost var (oldNew0, code0, next0, ins0) := (oldNew, code, next, ins);
        ghost var b := func.code[id].inputs[j];
        assert b in func.code[id].inputs;
        ReachEdge(func, id, b);
        var n := Visit(func, rank, func.code[id].inputs[j]);
        ins := ins.(inputs := ins.inputs[j := n]);
        MappedStep(func.code[id], ins0, oldNew0, oldNew, j, n);
        ExtendsTrans(old(oldNew), oldNew0, oldNew, rank, rank[id] as int - 1);
        AddedStep(func, old(oldNew), oldNew0, oldNew, id, b);
        QueuedTrans(old(code), code0, code, next0, next);
        TargetsTrans(old(code), code0, code, old(next), next0, next);
        j := j + 1;
      }
      MappedAll(func.code[id], ins, oldNew);
    }

    /**
     * The end of `visit` for a folded instruction: a `New` id is taken as it
     * is, a `Done` instruction is emitted; the id is recorded for `id`.
     */
    method Record(func: Func, id: InsId, st: FoldStatus) returns (newId: InsId)
      requires Valid(func) && id < |func.code| && id !in oldNew
      requires ControlsBelow(func.code[id], |func.code|)
      requires FoldedTo(func, oldNew, code, intern, id, st)
      modifies this`oldNew, this`next, this`cseMap, this`code
      ensures Valid(func)
      ensures oldNew == old(oldNew)[id := newId] && StandsFor(code, newId, st)
      ensures old(code) <= code && old(next) <= next
      ensures AppendedQueued(code, |old(code)|, next)
      ensures st.New? ==> code == old(code) && next == old(next) && cseMap == old(cseMap)
      ensures st.Done? ==> next == old(next) + (if IsControl(st.ins.op) then st.ins.controls else [])
      ensures st.Done? && IsCse(st.ins.op) && st.ins in old(cseMap) ==>
                newId == old(cseMap)[st.ins] && code == old(code) && cseMap == old(cseMap)
      ensures st.Done? && !(IsCse(st.ins.op) && st.ins in old(cseMap)) ==>
                && newId == |old(code)| && code == old(code) + [st.ins]
                && cseMap == if IsCse(st.ins.op) then old(cseMap)[st.ins := newId] else old(cseMap)
    {
      if st.New? {
        newId := st.id;
        Resolve(func, id, newId, st);
      } else {
        newId := Emit(func, id, st.ins);
      }
    }

    /** Records that old `id` resolves to the already emitted `n`, which stands for its fold `st`. */
    method Resolve(func: Func, id: InsId, n: InsId, ghost st: FoldStatus)
      requires Valid(func) && id < |func.code| && id !in oldNew && n < |code|
      requires FoldedTo(func, oldNew, code, intern, id, st) && StandsFor(code, n, st)
      modifies this`oldNew
      ensures Valid(func) && oldNew == old(oldNew)[id := n]
    {
      ResolveOk(func, oldNew, next, cseMap, code, intern, id, n);
      MemoAdd(func, oldNew, code, intern, id, st, n);
      oldNew := oldNew[id := n];
    }

    /**
     * Emission of a folded instruction `d` for old `id`: a control
     * instruction first queues its targets; a CSE-able instruction equal to
     * one already emitted reuses that id; anything else is appended (and a
     * CSE-able one entered in the CSE table).
     */
    method Emit(func: Func, id: InsId, d: Ins) returns (newId: InsId)
      requires Valid(func) && id < |func.code| && id !in oldNew
      requires ControlsBelow(func.code[id], |func.code|)
      requires Emittable(d, func.code[id], |code|, intern)
      requires FoldedTo(func, oldNew, code, intern, id, Done(d))
      modifies this`oldNew, this`next, this`cseMap, this`code
      ensures Valid(func)
      ensures oldNew == old(oldNew)[id := newId] && newId < |code| && code[newId] == d
      ensures next == old(next) + (if IsControl(d.op) then d.controls else [])
      ensures AppendedQueued(code, |old(code)|, next)
      ensures IsCse(d.op) && d in old(cseMap) ==> newId == old(cseMap)[d] && code == old(code) && cseMap == old(cseMap)
      ensures !(IsCse(d.op) && d in old(cseMap)) ==>
                && newId == |old(code)| && code == old(code) + [d]
                && cseMap == if IsCse(d.op) then old(cseMap)[d := newId] else old(cseMap)
    {
      ghost var (oldNew0, code0, cseMap0, intern0) := (oldNew, code, cseMap, intern);
      if IsControl(d.op) {
        Queue(func, d.controls);
      }
      assert oldNew == oldNew0 && code == code0 && cseMap == cseMap0 && intern == intern0;
      assert forall k | 0 <= k < |d.controls| :: d.controls[k] in next;
      if IsCse(d.op) && d in cseMap {
        newId := cseMap[d];
        Resolve(func, id, newId, Done(d));
      } else {
        newId := Append(func, id, d);
      }
    }

    /** Pushes `more` onto the back of the worklist. */
    method Queue(func: Func, more: seq<InsId>)
      requires Valid(func) && forall k | 0 <= k < |more| :: more[k] < |func.code|
      modifies this`next
      ensures Valid(func) && next == old(next) + more
    {
      QueueOk(func, oldNew, next, cseMap, code, intern, more);
      next := next + more;
    }

    /**
     * Appends `d` as the new instruction for old `id`, entering it in the
     * CSE table when it is CSE-able.
     */
    method Append(func: Func, id: InsId, d: Ins) returns (newId: InsId)
      requires Valid(func) && id < |func.code| && id !in oldNew
      requires WellFormed(d) && ConstRefOk(d, intern) && d.op != MOV
      requires InputsBelow(d, |code|) && ControlsBelow(d, |func.code|)
      requires !(IsCse(d.op) && d in cseMap)
      requires FoldedTo(func, oldNew, code, intern, id, Done(d))
      modifies this`oldNew, this`cseMap, this`code
      ensures Valid(func) && newId == |old(code)| && code == old(code) + [d]
      ensures oldNew == old(oldNew)[id := newId]
      ensures cseMap == if IsCse(d.op) then old(cseMap)[d := newId] else old(cseMap)
    {
      AppendOk(func, oldNew, next, cseMap, code, intern, id, d);
      FoldedToGrowCode(func, oldNew, code, code + [d], intern, id, Done(d));
      MemoGrowCode(func, oldNew, code, code + [d], intern);
      MemoAdd(func, oldNew, code + [d], intern, id, Done(d), |code|);
      newId := |code|;
      code := code + [d];
      if IsCse(d.op) {
        cseMap := cseMap[d := newId];
      }
      oldNew := oldNew[id := newId];
    }

    /** Takes the front of the worklist. */
    method Pop(func: Func) returns (id: InsId)
      requires Valid(func) && next != []
      modifies this`next
      ensures Valid(func) && id == old(next)[0] && next == old(next)[1..] && id < |func.code|
    {
      PopOk(func, oldNew, next, cseMap, code, intern);
      id := next[0];
      next := next[1..];
    }

    /** `fixup`: every control target of the new code becomes its new id. */
    method Fixup()
      requires forall i, k | 0 <= i < |code| && 0 <= k < |code[i].controls| :: code[i].controls[k] in oldNew
      modifies this`code
      ensures |code| == |old(code)|
      ensures forall i | 0 <= i < |code| :: code[i] == Retarget(old(code)[i], oldNew)
    {
      var i := 0;
      while i < |code|
        invariant 0 <= i <= |code| == |old(code)|
        invariant forall q | 0 <= q < i :: code[q] == Retarget(old(code)[q], oldNew)
        invariant forall q | i <= q < |code| :: code[q] == old(code)[q]
      {
        var ins := code[i];
        var ctrls := ins.controls;
        var k := 0;
        while k < |ctrls|
          invariant 0 <= k <= |ctrls| == |ins.controls|
          invariant forall q | 0 <= q < k :: ctrls[q] == oldNew[ins.controls[q]]
          invariant forall q | k <= q < |ctrls| :: ctrls[q] == ins.controls[q]
        {
          ctrls := ctrls[k := oldNew[ctrls[k]]];
          k := k + 1;
        }
        assert ctrls == Retarget(ins, oldNew).controls;
        code := code[i := ins.(controls := ctrls)];
        i := i + 1;
      }
    }

    /**
     * `Fold::run`: folds `func` into new code, starting from the entry and
     * draining the worklist of control targets; unreachable instructions are
     * never copied.  The result is `func` with the new code and entry; the
     * pass is left holding the old code (the swap).  `folded` is the new code
     * before `fixup`: every visited old id stands for its fold there.
     */
    method Run(func: Func, ghost rank: seq<nat>) returns (nf: Func, ghost folded: seq<Ins>)
      requires FuncOk(func, rank) && next == []
      requires intern.Valid() && forall i | 0 <= i < |func.code| :: ConstRefOk(func.code[i], intern)
      modifies this
      ensures next == [] && code == func.code
      ensures intern.Valid() && old(intern.vals) <= intern.vals
      ensures func.entry in oldNew && nf.entry == oldNew[func.entry] && nf.entry < |nf.code|
      ensures |nf.code| <= |func.code|
      ensures forall id | id in oldNew :: id < |func.code| && oldNew[id] < |nf.code|
      ensures forall i | 0 <= i < |nf.code| ::
                && WellFormed(nf.code[i]) && nf.code[i].op != MOV && ConstRefOk(nf.code[i], intern)
                && InputsBelow(nf.code[i], i) && ControlsBelow(nf.code[i], |nf.code|)
      ensures forall i, k | 0 <= i < |nf.code| && 0 <= k < |nf.code[i].controls| ::
                nf.code[i].controls[k] in oldNew.Values
      ensures forall i, j | 0 <= i < j < |nf.code| && IsCse(nf.code[i].op) :: nf.code[i] != nf.code[j]
      ensures MemoOk(func, oldNew, folded, intern)
      ensures |folded| == |nf.code|
      ensures forall i, k | 0 <= i < |folded| && 0 <= k < |folded[i].controls| :: folded[i].controls[k] in oldNew
      ensures forall i | 0 <= i < |nf.code| :: nf.code[i] == Retarget(folded[i], oldNew)
      ensures forall i | 0 <= i < |nf.code| :: i in oldNew.Values
      ensures forall id | id in oldNew :: Reachable(func, id)
    {
      StartOk(func, intern);
      ReachEntry(func);
      oldNew, cseMap, code := map[], map[], [];
      next := [func.entry];
      Drain(func, rank);
      nf, folded := Finish(func);
    }

    /**
     * The end of `Fold::run` once the worklist is empty: `fixup`, the new
     * function, and the swap that leaves the pass holding the old code.
     */
    method Finish(func: Func) returns (nf: Func, ghost folded: seq<Ins>)
      requires Valid(func) && next == [] && func.entry in oldNew && Queued(code, oldNew, [])
      modifies this`code
      ensures code == func.code && intern.Valid()
      ensures func.entry in oldNew && nf.entry == oldNew[func.entry] && nf.entry < |nf.code|
      ensures |nf.code| <= |func.code|
      ensures forall id | id in oldNew :: id < |func.code| && oldNew[id] < |nf.code|
      ensures forall i | 0 <= i < |nf.code| ::
                && WellFormed(nf.code[i]) && nf.code[i].op != MOV && ConstRefOk(nf.code[i], intern)
                && InputsBelow(nf.code[i], i) && ControlsBelow(nf.code[i], |nf.code|)
      ensures forall i, k | 0 <= i < |nf.code| && 0 <= k < |nf.code[i].controls| ::
                nf.code[i].controls[k] in oldNew.Values
      ensures forall i, j | 0 <= i < j < |nf.code| && IsCse(nf.code[i].op) :: nf.code[i] != nf.code[j]
      ensures MemoOk(func, oldNew, folded, intern)
      ensures |folded| == |nf.code|
      ensures forall i, k | 0 <= i < |folded| && 0 <= k < |folded[i].controls| :: folded[i].controls[k] in oldNew
      ensures forall i | 0 <= i < |nf.code| :: nf.code[i] == Retarget(folded[i], oldNew)
      ensures forall i | 0 <= i < |nf.code| :: i in oldNew.Values
    {
      assert forall i, k | 0 <= i < |code| && 0 <= k < |code[i].controls| :: code[i].controls[k] in oldNew;
      KeysBelow(oldNew, |func.code|);
      folded := code;
      Fixup();
      RetargetDistinct(folded, cseMap, oldNew, code);
      nf := func.(code := code, entry := oldNew[func.entry]);
      code := func.code;
    }

    /** The worklist loop of `Fold::run`: visits queued control targets until none is left. */
    method Drain(func: Func, ghost rank: seq<nat>)
      requires FuncOk(func, rank) && Valid(func)
      requires func.entry in oldNew || func.entry in next
      requires Queued(code, oldNew, next) && AllReachable(func, oldNew, next)
      modifies this
      ensures Valid(func) && next == [] && func.entry in oldNew
      ensures Queued(code, oldNew, []) && AllReachable(func, oldNew, [])
      ensures old(intern.vals) <= intern.vals
    {
      KeysBelow(oldNew, |func.code|);
      while next != []
        invariant Valid(func)
        invariant func.entry in oldNew || func.entry in next
        invariant Queued(code, oldNew, next) && AllReachable(func, oldNew, next)
        invariant old(intern.vals) <= intern.vals
        invariant |oldNew| <= |func.code|
        decreases |func.code| - |oldNew|, |next|
      {
        ghost var next0 := next;
        DrainStep(func, rank);
        if func.entry != next0[0] && func.entry in next0 {
          var j :| 0 <= j < |next0| && next0[j] == func.entry;
          assert next0[1..][j - 1] == func.entry;
        }
      }
    }

    /** One round of the worklist loop of `run`: pop an id and visit it. */
    method DrainStep(func: Func, ghost rank: seq<nat>)
      requires FuncOk(func, rank) && Valid(func) && next != []
      requires Queued(code, oldNew, next) && AllReachable(func, oldNew, next)
      modifies this
      ensures Valid(func) && Queued(code, oldNew, next) && AllReachable(func, oldNew, next)
      ensures Extends(old(oldNew), oldNew) && old(next)[0] in oldNew && old(next)[1..] <= next
      ensures old(intern.vals) <= intern.vals
      ensures |oldNew| <= |func.code|
      ensures |old(oldNew)| < |oldNew| || (oldNew == old(oldNew) && |next| < |old(next)|)
    {
      KeysBelow(oldNew, |func.code|);
      ghost var (code0, oldNew0, next0) := (code, oldNew, next);
      var id := VisitNext(func, rank);
      QueuedAfterVisit(code0, oldNew0, next0, code, oldNew, next);
      KeysBelow(oldNew, |func.code|);
      if id !in oldNew0 {
        SubsetSize(oldNew0.Keys + {id}, oldNew.Keys);
      }
    }

    /** Pops the front of the worklist and visits it. */
    method VisitNext(func: Func, ghost rank: seq<nat>) returns (id: InsId)
      requires FuncOk(func, rank) && Valid(func) && next != [] && AllReachable(func, oldNew, next)
      modifies this
      ensures Valid(func) && AllReachable(func, oldNew, next)
      ensures id == old(next)[0] && id in oldNew && Extends(old(oldNew), oldNew)
      ensures old(code) <= code && old(next)[1..] <= next && old(intern.vals) <= intern.vals
      ensures AppendedQueued(code, |old(code)|, next)
      ensures id in old(oldNew) ==> oldNew == old(oldNew) && next == old(next)[1..]
    {
      ReachPop(func, oldNew, next);
      id := Pop(func);
      var _ := Visit(func, rank, id);
    }
  }
}
