/** The two labelled output channels of a fail-safe stage, and the stage itself: a
    per-element routing step applied to every element of an input channel. */
module Channels {

  /** Where one input element goes: to the success channel or to the failure channel. */
  datatype Routed<+S, +F> = ToSuccess(success: S) | ToFailure(failure: F)

  /** The outputs of a stage, one sequence per tag. */
  datatype Outputs<+S, +F> = Outputs(success: seq<S>, failure: seq<F>)

  /** Emitting one routed element appends it to the channel its tag names. */
  function Emit<S, F>(o: Outputs<S, F>, r: Routed<S, F>): (e: Outputs<S, F>)
    ensures r.ToSuccess? ==> e.success == o.success + [r.success] && e.failure == o.failure
    ensures r.ToFailure? ==> e.failure == o.failure + [r.failure] && e.success == o.success
  {
    match r
    case ToSuccess(s) => Outputs(o.success + [s], o.failure)
    case ToFailure(f) => Outputs(o.success, o.failure + [f])
  }

  /** Emits routed elements in order, starting from empty channels. */
  function Partition<S, F>(rs: seq<Routed<S, F>>): (o: Outputs<S, F>)
    ensures |o.success| + |o.failure| == |rs|
  {
    if rs == [] then Outputs([], [])
    else Emit(Partition(rs[..|rs| - 1]), rs[|rs| - 1])
  }

  lemma PartitionSnoc<S, F>(rs: seq<Routed<S, F>>, r: Routed<S, F>)
    ensures Partition(rs + [r]) == Emit(Partition(rs), r)
  {
    assert (rs + [r])[..|rs|] == rs;
  }

  /** No loss and no duplication: a value occurs on the success channel exactly as often
      as it was routed there. */
  lemma {:induction false} PartitionSuccessCount<S, F>(rs: seq<Routed<S, F>>, s: S)
    ensures multiset(Partition(rs).success)[s] == multiset(rs)[ToSuccess(s)]
  {
    if rs != [] {
      var init, last := rs[..|rs| - 1], rs[|rs| - 1];
      PartitionSuccessCount(init, s);
      assert rs == init + [last];
      assert multiset(rs)[ToSuccess(s)] == multiset(init)[ToSuccess(s)] + multiset{last}[ToSuccess(s)];
      match last
      case ToSuccess(t) =>
        assert multiset(Partition(init).success + [t])[s]
          == multiset(Partition(init).success)[s] + multiset{t}[s];
      case ToFailure(_) =>
    }
  }

  /** The same for the failure channel. */
  lemma {:induction false} PartitionFailureCount<S, F>(rs: seq<Routed<S, F>>, f: F)
    ensures multiset(Partition(rs).failure)[f] == multiset(rs)[ToFailure(f)]
  {
    if rs != [] {
      var init, last := rs[..|rs| - 1], rs[|rs| - 1];
      PartitionFailureCount(init, f);
      assert rs == init + [last];
      assert multiset(rs)[ToFailure(f)] == multiset(init)[ToFailure(f)] + multiset{last}[ToFailure(f)];
      match last
      case ToSuccess(_) =>
      case ToFailure(g) =>
        assert multiset(Partition(init).failure + [g])[f]
          == multiset(Partition(init).failure)[f] + multiset{g}[f];
    }
  }

  lemma PartitionMembers<S(!new), F(!new)>(rs: seq<Routed<S, F>>)
    ensures forall s :: s in Partition(rs).success <==> ToSuccess(s) in rs
    ensures forall f :: f in Partition(rs).failure <==> ToFailure(f) in rs
  {
    forall s ensures s in Partition(rs).success <==> ToSuccess(s) in rs {
      PartitionSuccessCount(rs, s);
      assert s in Partition(rs).success <==> multiset(Partition(rs).success)[s] > 0;
      assert ToSuccess(s) in rs <==> multiset(rs)[ToSuccess(s)] > 0;
    }
    forall f ensures f in Partition(rs).failure <==> ToFailure(f) in rs {
      PartitionFailureCount(rs, f);
      assert f in Partition(rs).failure <==> multiset(Partition(rs).failure)[f] > 0;
      assert ToFailure(f) in rs <==> multiset(rs)[ToFailure(f)] > 0;
    }
  }

  /** The routing decisions of `step` on every element of `xs`, in input order. */
  function Routes<A, S, F>(step: A -> Routed<S, F>, xs: seq<A>): seq<Routed<S, F>> {
    seq(|xs|, i requires 0 <= i < |xs| => step(xs[i]))
  }

  /** A fail-safe stage: apply `step` to every input element and emit each result on the
      channel it chose. Every input yields exactly one output. */
  function RunStage<A, S, F>(step: A -> Routed<S, F>, xs: seq<A>): (o: Outputs<S, F>)
    ensures |o.success| + |o.failure| == |xs|
  {
    Partition(Routes(step, xs))
  }

  lemma RunStageSnoc<A, S, F>(step: A -> Routed<S, F>, xs: seq<A>, x: A)
    ensures RunStage(step, xs + [x]) == Emit(RunStage(step, xs), step(x))
  {
    assert Routes(step, xs + [x]) == Routes(step, xs) + [step(x)];
    PartitionSnoc(Routes(step, xs), step(x));
  }

  /** An output appears on a channel exactly when some input element was routed there. */
  lemma RunStageMembers<A(!new), S(!new), F(!new)>(step: A -> Routed<S, F>, xs: seq<A>)
    ensures forall s :: s in RunStage(step, xs).success <==>
      exists i :: 0 <= i < |xs| && step(xs[i]) == ToSuccess(s)
    ensures forall f :: f in RunStage(step, xs).failure <==>
      exists i :: 0 <= i < |xs| && step(xs[i]) == ToFailure(f)
  {
    var rs := Routes(step, xs);
    PartitionMembers(rs);
    forall s ensures ToSuccess(s) in rs <==> exists i :: 0 <= i < |xs| && step(xs[i]) == ToSuccess(s) {
      if ToSuccess(s) in rs {
        var i :| 0 <= i < |rs| && rs[i] == ToSuccess(s);
        assert step(xs[i]) == ToSuccess(s);
      }
      if exists i :: 0 <= i < |xs| && step(xs[i]) == ToSuccess(s) {
        var i :| 0 <= i < |xs| && step(xs[i]) == ToSuccess(s);
        assert rs[i] == ToSuccess(s);
      }
    }
    forall f ensures ToFailure(f) in rs <==> exists i :: 0 <= i < |xs| && step(xs[i]) == ToFailure(f) {
      if ToFailure(f) in rs {
        var i :| 0 <= i < |rs| && rs[i] == ToFailure(f);
        assert step(xs[i]) == ToFailure(f);
      }
      if exists i :: 0 <= i < |xs| && step(xs[i]) == ToFailure(f) {
        var i :| 0 <= i < |xs| && step(xs[i]) == ToFailure(f);
        assert rs[i] == ToFailure(f);
      }
    }
  }
}
