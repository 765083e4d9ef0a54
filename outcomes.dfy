/** Optional values and the outcome of an operation that the scripts may abort
    with a raised Ruby exception (an explicit `raise`, or a method called on nil). */
module Outcomes {

  datatype Option<T> = None | Some(value: T)

  /** `Err(msg)` stands for an exception whose message is `msg`. */
  datatype Result<T> = Ok(value: T) | Err(msg: string) {

    predicate IsFailure() {
      Err?
    }

    function PropagateFailure<U>(): Result<U>
      requires Err?
    {
      Err(msg)
    }

    function Extract(): T
      requires Ok?
    {
      value
    }
  }

  /** Running steps in order until one raises: all the values, or the error
      of the first step that failed. */
  function Collect<T>(rs: seq<Result<T>>): (r: Result<seq<T>>)
    ensures r.Ok? <==> forall i | 0 <= i < |rs| :: rs[i].Ok?
    ensures r.Ok? ==> |r.value| == |rs| && forall i | 0 <= i < |rs| :: rs[i] == Ok(r.value[i])
    ensures r.Err? ==> exists i | 0 <= i < |rs| :: rs[i] == Err(r.msg) && forall j | 0 <= j < i :: rs[j].Ok?
  {
    if rs == [] then Ok([])
    else if rs[0].Err? then Err(rs[0].msg)
    else
      var rest := Collect(rs[1..]);
      assert forall i | 1 <= i < |rs| :: rs[i] == rs[1..][i - 1];
      if rest.Err? then
        assert exists i | 1 <= i < |rs| :: rs[i] == Err(rest.msg) && forall j | 0 <= j < i :: rs[j].Ok?;
        Err(rest.msg)
      else Ok([rs[0].value] + rest.value)
  }

  /** One more step: its value is added after the others, unless an
      earlier step or this one failed. */
  lemma {:induction false} CollectSnoc<T>(rs: seq<Result<T>>, x: Result<T>)
    ensures Collect(rs + [x]) == if Collect(rs).Err? then Collect(rs)
      else if x.Err? then Err(x.msg) else Ok(Collect(rs).value + [x.value])
    decreases |rs|
  {
    var ys := rs + [x];
    if rs == [] {
      assert ys == [x] && ys[1..] == [];
      if x.Ok? {
        assert Collect(ys) == Ok([x.value] + []);
        assert [x.value] + [] == [] + [x.value];
      }
    } else {
      assert ys[0] == rs[0] && ys[1..] == rs[1..] + [x];
      CollectSnoc(rs[1..], x);
      if rs[0].Ok? {
        var rest := Collect(rs[1..]);
        assert Collect(rs) == if rest.Err? then Err(rest.msg) else Ok([rs[0].value] + rest.value);
        assert Collect(ys) == if Collect(ys[1..]).Err? then Err(Collect(ys[1..]).msg)
          else Ok([rs[0].value] + Collect(ys[1..]).value);
        if rest.Ok? && x.Ok? {
          assert [rs[0].value] + (rest.value + [x.value]) == [rs[0].value] + rest.value + [x.value];
        }
      }
    }
  }

  /** The results of the steps among the first `n` that `runs` selects, in
      order. */
  function Picked<T>(runs: nat -> bool, step: nat -> Result<T>, n: nat): (rs: seq<Result<T>>)
    ensures |rs| <= n
  {
    if n == 0 then []
    else Picked(runs, step, n - 1) + (if runs(n - 1) then [step(n - 1)] else [])
  }

  /** Every step of `rs` succeeded. */
  ghost predicate AllOk<T>(rs: seq<Result<T>>) {
    forall k | 0 <= k < |rs| :: rs[k].Ok?
  }

  lemma {:induction false} PickedAllOk<T>(runs: nat -> bool, step: nat -> Result<T>, n: nat)
    ensures AllOk(Picked(runs, step, n)) <==> forall i | 0 <= i < n && runs(i) :: step(i).Ok?
  {
    if n > 0 {
      PickedAllOk(runs, step, n - 1);
      var us := Picked(runs, step, n - 1);
      var here := if runs(n - 1) then [step(n - 1)] else [];
      assert Picked(runs, step, n) == us + here;
      assert AllOk(us + here) <==> AllOk(us) && AllOk(here) by {
        assert forall k | 0 <= k < |us| :: (us + here)[k] == us[k];
        assert forall k | 0 <= k < |here| :: (us + here)[|us| + k] == here[k];
      }
      if runs(n - 1) {
        assert here == [step(n - 1)] && here[0] == step(n - 1);
      }
      assert AllOk(here) <==> (runs(n - 1) ==> step(n - 1).Ok?);
      assert (forall i | 0 <= i < n && runs(i) :: step(i).Ok?)
        <==> (forall i | 0 <= i < n - 1 && runs(i) :: step(i).Ok?) && (runs(n - 1) ==> step(n - 1).Ok?);
    }
  }

  /** The selected steps are collected exactly when each of them succeeds. */
  lemma PickedOk<T>(runs: nat -> bool, step: nat -> Result<T>, n: nat)
    ensures Collect(Picked(runs, step, n)).Ok? <==> forall i | 0 <= i < n && runs(i) :: step(i).Ok?
  {
    PickedAllOk(runs, step, n);
  }

  /** When the selected steps fail, the error is that of the first selected
      step that fails, at `i`. */
  lemma {:induction false} PickedFirstError<T>(runs: nat -> bool, step: nat -> Result<T>, n: nat) returns (i: nat)
    requires Collect(Picked(runs, step, n)).Err?
    ensures i < n && runs(i) && step(i).Err? && Collect(Picked(runs, step, n)) == Err(step(i).msg)
    ensures forall j | 0 <= j < i && runs(j) :: step(j).Ok?
  {
    PickedNotEmpty(runs, step, n);
    if Collect(Picked(runs, step, n - 1)).Err? {
      PickedEarlierError(runs, step, n);
      i := PickedFirstError(runs, step, n - 1);
    } else {
      PickedLastError(runs, step, n);
      i := n - 1;
    }
  }

  lemma PickedNotEmpty<T>(runs: nat -> bool, step: nat -> Result<T>, n: nat)
    requires Collect(Picked(runs, step, n)).Err?
    ensures n > 0
  {
  }

  /** An error among the first `n - 1` steps stays the error. */
  lemma PickedEarlierError<T>(runs: nat -> bool, step: nat -> Result<T>, n: nat)
    requires n > 0 && Collect(Picked(runs, step, n - 1)).Err?
    ensures Collect(Picked(runs, step, n)) == Collect(Picked(runs, step, n - 1))
  {
    var us := Picked(runs, step, n - 1);
    if runs(n - 1) {
      assert Picked(runs, step, n) == us + [step(n - 1)];
      CollectSnoc(us, step(n - 1));
    } else {
      assert Picked(runs, step, n) == us + [] == us;
    }
  }

  /** With the first `n - 1` steps collected, a failure is the last step's. */
  lemma PickedLastError<T>(runs: nat -> bool, step: nat -> Result<T>, n: nat)
    requires n > 0 && Collect(Picked(runs, step, n - 1)).Ok? && Collect(Picked(runs, step, n)).Err?
    ensures runs(n - 1) && step(n - 1).Err? && Collect(Picked(runs, step, n)) == Err(step(n - 1).msg)
    ensures forall j | 0 <= j < n - 1 && runs(j) :: step(j).Ok?
  {
    var us := Picked(runs, step, n - 1);
    PickedOk(runs, step, n - 1);
    if runs(n - 1) {
      assert Picked(runs, step, n) == us + [step(n - 1)];
      CollectSnoc(us, step(n - 1));
    }
  }

  /** The first `|done|` steps succeeded with the values `done`. */
  ghost predicate Succeeded<T>(rs: seq<Result<T>>, done: seq<T>) {
    |done| <= |rs| && forall j | 0 <= j < |done| :: rs[j] == Ok(done[j])
  }

  lemma SucceededStep<T>(rs: seq<Result<T>>, done: seq<T>, x: T)
    requires Succeeded(rs, done) && |done| < |rs| && rs[|done|] == Ok(x)
    ensures Succeeded(rs, done + [x])
  {
  }

  /** When every step succeeded, the steps give their values. */
  lemma SucceededAll<T>(rs: seq<Result<T>>, done: seq<T>)
    requires Succeeded(rs, done) && |done| == |rs|
    ensures Collect(rs) == Ok(done)
  {
    assert Collect(rs).value == done;
  }

  /** The first failed step decides what the steps give. */
  lemma FirstErrorIsCollected<T>(rs: seq<Result<T>>, done: seq<T>)
    requires Succeeded(rs, done) && |done| < |rs| && rs[|done|].Err?
    ensures Collect(rs) == Err(rs[|done|].msg)
  {
    var c := Collect(rs);
    var e :| 0 <= e < |rs| && rs[e] == Err(c.msg) && forall j | 0 <= j < e :: rs[j].Ok?;
    assert e == |done|;
  }
}
