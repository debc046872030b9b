/** Running a list of fallible steps in order: all values, or the first error. */
module Outcomes {
  import opened GoStrings

  function Collect<T, E>(rs: seq<Result<T, E>>): Result<seq<T>, E> {
    if rs == [] then Ok([])
    else
      match rs[0]
      case Err(e) => Err(e)
      case Ok(v) =>
        match Collect(rs[1..])
        case Err(e) => Err(e)
        case Ok(vs) => Ok([v] + vs)
  }

  /** All steps succeed exactly when the collection does, and it holds their values in order. */
  lemma {:induction false} CollectExact<T, E>(rs: seq<Result<T, E>>)
    ensures Collect(rs).Ok? <==> forall i | 0 <= i < |rs| :: rs[i].Ok?
    ensures Collect(rs).Ok?
            ==> |Collect(rs).value| == |rs| && forall i | 0 <= i < |rs| :: rs[i] == Ok(Collect(rs).value[i])
  {
    if rs != [] {
      CollectExact(rs[1..]);
      assert forall i | 0 < i < |rs| :: rs[i] == rs[1..][i - 1];
      assert forall i | 0 <= i < |rs[1..]| :: rs[1..][i] == rs[i + 1];
    }
  }

  /** A failure is the error of the first failing step. */
  lemma {:induction false} CollectFirstError<T, E>(rs: seq<Result<T, E>>, i: nat)
    requires i < |rs| && rs[i].Err? && forall j | 0 <= j < i :: rs[j].Ok?
    ensures Collect(rs) == Err(rs[i].error)
  {
    if i > 0 { CollectFirstError(rs[1..], i - 1); }
  }

  lemma CollectOne<T, E>(r: Result<T, E>)
    ensures Collect([r]) == match r case Err(e) => Err(e) case Ok(v) => Ok([v])
  {
    assert [r][1..] == [];
    assert Collect([r][1..]) == Ok([]);
    if r.Ok? { assert [r.value] + [] == [r.value]; }
  }

  lemma {:induction false} CollectAppend<T, E>(a: seq<Result<T, E>>, b: seq<Result<T, E>>)
    ensures Collect(a).Err? ==> Collect(a + b) == Collect(a)
    ensures Collect(a).Ok? && Collect(b).Err? ==> Collect(a + b) == Collect(b)
    ensures Collect(a).Ok? && Collect(b).Ok? ==> Collect(a + b) == Ok(Collect(a).value + Collect(b).value)
  {
    if a == [] {
      assert a + b == b;
      if Collect(b).Ok? { assert [] + Collect(b).value == Collect(b).value; }
    } else {
      assert (a + b)[1..] == a[1..] + b;
      CollectAppend(a[1..], b);
      if a[0].Ok? && Collect(a[1..]).Ok? && Collect(b).Ok? {
        var v, x, y := [a[0].value], Collect(a[1..]).value, Collect(b).value;
        assert v + (x + y) == v + x + y;
      }
    }
  }
}
