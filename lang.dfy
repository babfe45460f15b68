/**
 * Language support: the language enumeration's name and discriminant
 * conversions, and the packed per-language emit state `LangState`, which keeps
 * one slot per present language, packed in ascending language order and
 * found by counting the present languages below.
 *
 * The list of languages is generated by a macro whose expansion is not part
 * of this model, so the language table is a parameter: language `l` is the
 * discriminant `l`, named `names[l]`.
 */
module Lang {
  import opened Wrappers
  import opened Bytes

  /** A language, as its discriminant. */
  type LangId = nat

  /** The width of the language set's bitmask. */
  const MASK_BITS: nat := 64

  /** A language table: at most 64 languages, no two with the same name. */
  predicate TableOk(names: seq<seq<byte>>) {
    && |names| <= MASK_BITS
    && forall i, j | 0 <= i < j < |names| :: names[i] != names[j]
  }

  // ---------------------------------------------------------------------
  // from_name, name, from_u8
  // ---------------------------------------------------------------------

  /**
   * `Lang::name`: the name of language `l`.  In a table of distinct names,
   * `from_name` maps it back to `l`.
   */
  function Name(names: seq<seq<byte>>, l: LangId): (r: seq<byte>)
    requires l < |names|
    ensures r in names
    ensures TableOk(names) ==> FromName(names, r) == Some(l)
  {
    names[l]
  }

  /** `Lang::from_name`: the first language, in declaration order, whose name is `name`. */
  function FromName(names: seq<seq<byte>>, name: seq<byte>): (r: Option<LangId>)
    ensures r.Some? ==> r.value < |names| && names[r.value] == name
    ensures r.Some? ==> forall k | 0 <= k < r.value :: names[k] != name
    ensures r.None? <==> name !in names
  {
    MatchFrom(names, name, 0)
  }

  /** The match arms from `i` on. */
  function MatchFrom(names: seq<seq<byte>>, name: seq<byte>, i: nat): (r: Option<LangId>)
    requires i <= |names|
    requires forall k | 0 <= k < i :: names[k] != name
    ensures r.Some? ==> i <= r.value < |names| && names[r.value] == name
    ensures r.Some? ==> forall k | 0 <= k < r.value :: names[k] != name
    ensures r.None? <==> name !in names
    decreases |names| - i
  {
    if i == |names| then None
    else if names[i] == name then Some(i)
    else MatchFrom(names, name, i + 1)
  }

  /** `Lang::from_u8`: the language with raw discriminant `raw`; `None` where the source's assertion fails. */
  function FromU8(names: seq<seq<byte>>, raw: byte): (r: Option<LangId>)
    ensures r.Some? <==> raw < |names|
    ensures r.Some? ==> r.value == raw
  {
    if raw < |names| then Some(raw) else None
  }

  /** Discriminants round-trip through `from_u8`, and every language's discriminant fits in a byte. */
  lemma FromU8Discriminant(names: seq<seq<byte>>, l: LangId)
    requires TableOk(names) && l < |names|
    ensures l < 256 && FromU8(names, l) == Some(l)
  {
  }

  // ---------------------------------------------------------------------
  // The language set and its bitmask rank
  // ---------------------------------------------------------------------

  /** A set of languages representable in the 64-bit mask. */
  predicate InMask(present: set<LangId>) {
    forall l | l in present :: l < MASK_BITS
  }

  /**
   * The number of set bits of the mask below bit `l` (the population count
   * of the mask with bits `l` and above cleared).
   */
  function Rank(present: set<LangId>, l: LangId): (r: nat)
    ensures r <= l
  {
    if l == 0 then 0 else Rank(present, l - 1) + (if l - 1 in present then 1 else 0)
  }

  /** The members below `n`, in ascending order (the set's iteration order). */
  function Ascending(present: set<LangId>, n: nat): (s: seq<LangId>)
    ensures |s| == Rank(present, n)
  {
    if n == 0 then [] else Ascending(present, n - 1) + (if n - 1 in present then [n - 1] else [])
  }

  /** The members below `n`. */
  function Low(present: set<LangId>, n: nat): (s: set<LangId>)
    ensures forall l :: l in s <==> l in present && l < n
  {
    if n == 0 then {} else Low(present, n - 1) + (if n - 1 in present then {n - 1} else {})
  }

  /** The rank below `n` counts the members below `n`. */
  lemma {:induction false} RankCounts(present: set<LangId>, n: nat)
    ensures Rank(present, n) == |Low(present, n)|
  {
    if n > 0 {
      RankCounts(present, n - 1);
      if n - 1 in present {
        assert n - 1 !in Low(present, n - 1);
      }
    }
  }

  /** The members of a set in the mask, in ascending order; as many as the set has. */
  function Members(present: set<LangId>): (s: seq<LangId>)
    requires InMask(present)
    ensures |s| == |present|
  {
    RankCounts(present, MASK_BITS);
    assert Low(present, MASK_BITS) == present;
    Ascending(present, MASK_BITS)
  }

  /** The ascending list below `n` holds exactly the members below `n`. */
  lemma {:induction false} AscendingMembers(present: set<LangId>, n: nat)
    ensures forall l :: l in Ascending(present, n) <==> l in present && l < n
  {
    if n > 0 {
      AscendingMembers(present, n - 1);
    }
  }

  /** The ascending list is strictly increasing. */
  lemma {:induction false} AscendingSorted(present: set<LangId>, n: nat)
    ensures Increasing(Ascending(present, n))
  {
    if n > 0 {
      AscendingSorted(present, n - 1);
      AscendingMembers(present, n - 1);
      var s := Ascending(present, n - 1);
      if n - 1 in present {
        var s' := s + [n - 1];
        forall i, j | 0 <= i < j < |s'|
          ensures s'[i] < s'[j]
        {
          assert s'[i] == s[i] && s[i] in s;
        }
      }
    }
  }

  predicate Increasing(s: seq<LangId>) {
    forall i, j | 0 <= i < j < |s| :: s[i] < s[j]
  }

  /** Each member `l` below `n` sits at index `Rank(present, l)` of the ascending list. */
  lemma {:induction false} AscendingRank(present: set<LangId>, n: nat, l: LangId)
    requires l in present && l < n
    ensures Rank(present, l) < |Ascending(present, n)| && Ascending(present, n)[Rank(present, l)] == l
  {
    if l < n - 1 {
      AscendingRank(present, n - 1, l);
      assert Ascending(present, n)[Rank(present, l)] == Ascending(present, n - 1)[Rank(present, l)];
    } else {
      assert |Ascending(present, n - 1)| == Rank(present, l);
    }
  }

  /**
   * `get_mut`'s index: a present language's rank is below the number of
   * present languages and is its position in ascending order; so distinct
   * present languages have distinct slots.
   */
  lemma RankIsSlot(present: set<LangId>, l: LangId)
    requires InMask(present) && l in present
    ensures Rank(present, l) < |present| && Members(present)[Rank(present, l)] == l
  {
    AscendingRank(present, MASK_BITS, l);
    assert Members(present) == Ascending(present, MASK_BITS);
  }

  /** Distinct present languages never share a slot. */
  lemma SlotsDistinct(present: set<LangId>, l1: LangId, l2: LangId)
    requires InMask(present) && l1 in present && l2 in present && l1 != l2
    ensures Rank(present, l1) != Rank(present, l2)
  {
    RankIsSlot(present, l1);
    RankIsSlot(present, l2);
  }

  // ---------------------------------------------------------------------
  // LangState
  // ---------------------------------------------------------------------

  /** An opaque compile error. */
  type Error = nat

  /** One slot: not yet written, or the emit state `state` of language `lang`. */
  datatype AnyLang = Uninit | Live(lang: LangId, state: nat)

  /** `Result::and`: the first error wins, otherwise the later result. */
  function And(r: Result<(), Error>, s: Result<(), Error>): Result<(), Error> {
    if r.Err? then r else s
  }

  /** The results `rs` folded with `And`, from `Ok(())`, left to right. */
  function AndAll(rs: seq<Result<(), Error>>): Result<(), Error> {
    if rs == [] then Ok(()) else And(AndAll(rs[..|rs| - 1]), rs[|rs| - 1])
  }

  /** Folding with `And` gives `Ok` when every result is, and otherwise the first error. */
  lemma {:induction false} AndAllFirstError(rs: seq<Result<(), Error>>)
    ensures AndAll(rs).Ok? <==> forall i | 0 <= i < |rs| :: rs[i].Ok?
    ensures AndAll(rs).Err? ==>
              exists i | 0 <= i < |rs| :: rs[i] == AndAll(rs) && forall j | 0 <= j < i :: rs[j].Ok?
  {
    if rs != [] {
      var n := |rs| - 1;
      var init := rs[..n];
      AndAllFirstError(init);
      assert forall i | 0 <= i < n :: rs[i] == init[i];
      if AndAll(init).Err? {
        assert AndAll(rs) == AndAll(init);
        var i :| 0 <= i < n && init[i] == AndAll(init) && forall j | 0 <= j < i :: init[j].Ok?;
        assert rs[i] == AndAll(rs) && !rs[i].Ok?;
      } else {
        assert AndAll(rs) == rs[n];
      }
    }
  }

  /** What `finish` returns for each live slot. */
  function Finished(slots: seq<AnyLang>, finish: (LangId, nat) -> Result<(), Error>): (rs: seq<Result<(), Error>>)
    requires forall k | 0 <= k < |slots| :: slots[k].Live?
    ensures |rs| == |slots|
  {
    seq(|slots|, k requires 0 <= k < |slots| => finish(slots[k].lang, slots[k].state))
  }

  /**
   * `LangState`: the set of present languages and their slots, packed in
   * ascending language order.
   */
  class LangState {
    var present: set<LangId>
    var data: array<AnyLang>

    /** Slot `k` holds the live state of the `k`-th present language. */
    ghost predicate Valid()
      reads this, data
    {
      && InMask(present)
      && data.Length == |present|
      && forall k | 0 <= k < data.Length :: data[k].Live? && data[k].lang == Members(present)[k]
    }

    /** `LangState::default`: no languages, no slots. */
    constructor Empty()
      ensures present == {} && data.Length == 0 && fresh(data) && Valid()
    {
      present := {};
      data := new AnyLang[0];
    }

    constructor Packed(present: set<LangId>, data: array<AnyLang>)
      ensures this.present == present && this.data == data
    {
      this.present := present;
      this.data := data;
    }

    /**
     * `LangState::new`: one slot per language of `langs`, filled in
     * ascending order with what `begin` (each language's `begin_emit`)
     * returns; the first failing `begin` ends it with that error.  `calls`
     * lists the languages whose `begin` ran.
     */
    static method New(langs: set<LangId>, begin: LangId -> Result<nat, Error>)
      returns (r: Result<LangState, Error>, calls: seq<LangId>)
      requires InMask(langs)
      ensures calls <= Members(langs)
      ensures forall k | 0 <= k < |calls| - 1 :: begin(calls[k]).Ok?
      ensures r.Ok? <==> forall l | l in langs :: begin(l).Ok?
      ensures r.Err? ==> calls != [] && begin(calls[|calls| - 1]) == Err(r.error)
      ensures r.Ok? ==> calls == Members(langs)
      ensures r.Ok? ==> fresh(r.value) && fresh(r.value.data) && r.value.Valid() && r.value.present == langs
      ensures r.Ok? ==> forall k | 0 <= k < r.value.data.Length ::
                begin(r.value.data[k].lang) == Ok(r.value.data[k].state)
      ensures langs == {} ==> calls == [] && r.Ok? && r.value.data.Length == 0
    {
      var num := |langs|;
      if num == 0 {
        var s := new LangState.Empty();
        return Ok(s), [];
      }
      var order := Members(langs);
      AscendingMembers(langs, MASK_BITS);
      var mem := new AnyLang[num](_ => Uninit);
      calls := [];
      for k := 0 to num
        invariant calls == order[..k]
        invariant forall q | 0 <= q < k :: begin(order[q]).Ok? && mem[q] == Live(order[q], begin(order[q]).value)
      {
        var lang := order[k];
        calls := calls + [lang];
        var l := begin(lang);
        if l.Err? {
          assert calls == order[..k + 1];
          return Err(l.error), calls;
        }
        mem[k] := Live(lang, l.value);
      }
      assert calls == order;
      var s := new LangState.Packed(langs, mem);
      r := Ok(s);
    }

    /**
     * `get_mut`: the slot of a present language — the number of present
     * languages below it — which holds that language's state.
     */
    method GetMut(lang: LangId) returns (idx: nat)
      requires Valid() && lang in present
      ensures idx == Rank(present, lang)
      ensures idx < data.Length && data[idx].Live? && data[idx].lang == lang
    {
      idx := Rank(present, lang);
      RankIsSlot(present, lang);
    }

    /**
     * `finish`: `finish` (each language's `finish_emit`) on every slot in
     * order, even after an error; the result is the first error, or `Ok`.
     * `calls` lists the languages finished.
     */
    method Finish(finish: (LangId, nat) -> Result<(), Error>) returns (result: Result<(), Error>, calls: seq<LangId>)
      requires Valid()
      ensures calls == Members(present)
      ensures result == AndAll(Finished(data[..], finish))
    {
      result := Ok(());
      calls := [];
      ghost var rs: seq<Result<(), Error>> := [];
      for k := 0 to data.Length
        invariant calls == Members(present)[..k]
        invariant |rs| == k && result == AndAll(rs)
        invariant forall q | 0 <= q < k :: rs[q] == finish(data[q].lang, data[q].state)
      {
        var l := data[k];
        calls := calls + [l.lang];
        var x := finish(l.lang, l.state);
        ghost var rs' := rs + [x];
        assert rs'[..k] == rs && rs'[k] == x;
        assert AndAll(rs') == And(AndAll(rs), x);
        rs := rs';
        result := And(result, x);
      }
      assert calls == Members(present);
      assert rs == Finished(data[..], finish);
    }
  }
}
