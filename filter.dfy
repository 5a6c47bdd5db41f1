/**
 * Which converted input values the encoder keeps. A value is ignored when it
 * is not above the previous kept value, when it is below `start`, or when it
 * has no bit of its own; every other value is kept and becomes the new
 * previous value. Of the ignored values only the strictly smaller ones are
 * reported, as unsorted input.
 */
module Filter {
  import opened Bytes
  import opened Progression

  /** Why a value is kept or ignored. */
  datatype Verdict = Keep | Duplicate | Unsorted | BelowStart | Unrepresentable

  /** `had_prev` and `prev`: whether a value has been kept, and the last one kept. */
  datatype FilterState = FilterState(hadPrev: bool, prev: int)

  /** The state after keeping the values `kept`, in order. */
  function StateAfter(kept: seq<int>): (s: FilterState)
    ensures s.hadPrev <==> kept != []
    ensures s.hadPrev ==> s.prev == kept[|kept| - 1]
  {
    if kept == [] then FilterState(false, 0) else FilterState(true, kept[|kept| - 1])
  }

  /** The checks, in order: ordering first, then `start`, then the step. */
  function Judge(p: Progression, s: FilterState, v: int): (r: Verdict)
    requires ValidProgression(p)
    ensures r == Keep <==> (!s.hadPrev || v > s.prev) && Representable(p, v)
    ensures r == Unsorted <==> s.hadPrev && v < s.prev
    ensures r == Duplicate <==> s.hadPrev && v == s.prev
  {
    if s.hadPrev && v <= s.prev then
      (if v < s.prev then Unsorted else Duplicate)
    else if v < p.start then BelowStart
    else if (v - p.start) % p.step != 0 then Unrepresentable
    else Keep
  }

  /** The values kept from `vs`, in input order. */
  function Kept(p: Progression, vs: seq<int>): seq<int>
    requires ValidProgression(p)
  {
    if vs == [] then []
    else
      var kept := Kept(p, vs[..|vs| - 1]);
      if Judge(p, StateAfter(kept), vs[|vs| - 1]) == Keep then kept + [vs[|vs| - 1]] else kept
  }

  /**
   * What the encoder relies on: the kept values strictly increase, each has a
   * bit of its own, and each came from the input.
   */
  lemma {:induction false} KeptSound(p: Progression, vs: seq<int>)
    requires ValidProgression(p)
    ensures Increasing(Kept(p, vs))
    ensures forall v :: v in Kept(p, vs) ==> Representable(p, v) && v in vs
  {
    if vs != [] {
      var init := vs[..|vs| - 1];
      KeptSound(p, init);
      assert forall v :: v in init ==> v in vs;
    }
  }

  /**
   * The kept values, described without the running state: a value is kept
   * exactly when it has a bit and some occurrence of it exceeds every
   * representable value before that occurrence.
   */
  lemma {:induction false} KeptExactly(p: Progression, vs: seq<int>, v: int)
    requires ValidProgression(p)
    ensures v in Kept(p, vs) <==>
      Representable(p, v) &&
      exists i :: 0 <= i < |vs| && vs[i] == v && forall j :: 0 <= j < i && Representable(p, vs[j]) ==> vs[j] < v
  {
    if vs != [] {
      var n := |vs| - 1;
      var init := vs[..n];
      var kept := Kept(p, init);
      KeptExactly(p, init, v);
      KeptSound(p, init);
      KeptIsRunningMax(p, init);
      if v in Kept(p, vs) && v !in kept {
        assert v == vs[n];
        forall j | 0 <= j < n && Representable(p, vs[j])
          ensures vs[j] < v
        {
          assert vs[j] == init[j];
        }
      }
      if v !in Kept(p, vs) && Representable(p, v) {
        forall i | 0 <= i < |vs| && vs[i] == v
          ensures exists j :: 0 <= j < i && Representable(p, vs[j]) && vs[j] >= v
        {
          if i == n {
            var last := kept[|kept| - 1];
            assert last in init;
            var j :| 0 <= j < n && init[j] == last;
            assert vs[j] == last;
          } else {
            assert init[i] == v;
            var j :| 0 <= j < i && Representable(p, init[j]) && init[j] >= v;
            assert vs[j] == init[j];
          }
        }
      }
      if v in kept {
        var i :| 0 <= i < n && init[i] == v && forall j :: 0 <= j < i && Representable(p, init[j]) ==> init[j] < v;
        assert vs[i] == v;
        forall j | 0 <= j < i && Representable(p, vs[j])
          ensures vs[j] < v
        {
          assert vs[j] == init[j];
        }
      }
    }
  }

  /** The last kept value is the largest representable value seen so far. */
  lemma {:induction false} KeptIsRunningMax(p: Progression, vs: seq<int>)
    requires ValidProgression(p)
    ensures Kept(p, vs) == [] <==> forall j :: 0 <= j < |vs| ==> !Representable(p, vs[j])
    ensures Kept(p, vs) != [] ==>
      forall j :: 0 <= j < |vs| && Representable(p, vs[j]) ==> vs[j] <= Kept(p, vs)[|Kept(p, vs)| - 1]
  {
    if vs != [] {
      var init := vs[..|vs| - 1];
      KeptIsRunningMax(p, init);
      assert forall j :: 0 <= j < |init| ==> vs[j] == init[j];
    }
  }

  /** Input that is already sorted and representable is kept whole. */
  lemma {:induction false} KeptSortedInput(p: Progression, vs: seq<int>)
    requires ValidProgression(p)
    requires Increasing(vs) && forall v :: v in vs ==> Representable(p, v)
    ensures Kept(p, vs) == vs
  {
    if vs != [] {
      var init := vs[..|vs| - 1];
      assert forall v :: v in init ==> v in vs;
      KeptSortedInput(p, init);
      assert vs[|vs| - 1] in vs;
      assert vs == init + [vs[|vs| - 1]];
    }
  }

  /** Filtering the filter's own output changes nothing. */
  lemma KeptIdempotent(p: Progression, vs: seq<int>)
    requires ValidProgression(p)
    ensures Kept(p, Kept(p, vs)) == Kept(p, vs)
  {
    KeptSound(p, vs);
    KeptSortedInput(p, Kept(p, vs));
  }
}
