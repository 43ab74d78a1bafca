/** Both services turn the FAISS pairs into result records the same way: each pair is
    kept as a record, dropped by the `idx < len(metadata)` filter, or raises an exception
    that abandons the whole loop. */
module Collecting {
  import opened Wrappers

  datatype Step<R> = Keep(record: R) | Drop | Raise

  /** The `results` list the loop builds by appending, or None when some step raised. */
  function Collect<R>(steps: seq<Step<R>>): Option<seq<R>>
    decreases |steps|
  {
    if steps == [] then Some([])
    else
      match Collect(steps[..|steps| - 1])
      case None => None
      case Some(records) =>
        match steps[|steps| - 1]
        case Keep(r) => Some(records + [r])
        case Drop => Some(records)
        case Raise => None
  }

  /** The positions of the kept steps, in order. */
  function Kept<R>(steps: seq<Step<R>>): (positions: seq<nat>)
    ensures |positions| <= |steps|
    ensures forall j :: 0 <= j < |positions| ==> positions[j] < |steps|
    decreases |steps|
  {
    if steps == [] then []
    else
      var positions := Kept(steps[..|steps| - 1]);
      if steps[|steps| - 1].Keep? then positions + [|steps| - 1] else positions
  }

  /** `Kept` lists exactly the kept positions, in increasing order. */
  lemma {:induction false} KeptExactly<R>(steps: seq<Step<R>>)
    ensures forall j, j' :: 0 <= j < j' < |Kept(steps)| ==> Kept(steps)[j] < Kept(steps)[j']
    ensures forall i :: 0 <= i < |steps| ==> (steps[i].Keep? <==> i in Kept(steps))
    decreases |steps|
  {
    if steps != [] {
      var init := steps[..|steps| - 1];
      KeptExactly(init);
      assert forall i :: 0 <= i < |init| ==> init[i] == steps[i];
    }
  }

  /** The loop raises exactly when one of its steps does. */
  lemma {:induction false} CollectRaises<R>(steps: seq<Step<R>>)
    ensures Collect(steps).None? <==> exists i :: 0 <= i < |steps| && steps[i].Raise?
    decreases |steps|
  {
    if steps != [] {
      var init := steps[..|steps| - 1];
      CollectRaises(init);
      assert forall i :: 0 <= i < |init| ==> init[i] == steps[i];
    }
  }

  /** When no step raises, the records are those of the kept steps, in step order. */
  lemma {:induction false} CollectKept<R>(steps: seq<Step<R>>, records: seq<R>)
    requires Collect(steps) == Some(records)
    ensures |records| == |Kept(steps)|
    ensures forall j :: 0 <= j < |records| ==> steps[Kept(steps)[j]] == Keep(records[j])
    decreases |steps|
  {
    if steps != [] {
      var init := steps[..|steps| - 1];
      assert forall i :: 0 <= i < |init| ==> init[i] == steps[i];
      var last := steps[|steps| - 1];
      assert Collect(init).Some?;
      var prior := Collect(init).value;
      CollectKept(init, prior);
      if last.Keep? {
        assert records == prior + [last.record];
      }
    }
  }

  /** One more loop iteration: the prefix of `i + 1` steps in terms of the first `i`. */
  lemma CollectExtend<R>(steps: seq<Step<R>>, i: nat)
    requires i < |steps|
    ensures Collect(steps[..i + 1]) ==
      match Collect(steps[..i])
      case None => None
      case Some(records) =>
        match steps[i]
        case Keep(r) => Some(records + [r])
        case Drop => Some(records)
        case Raise => None
  {
    assert steps[..i + 1][..i] == steps[..i];
  }

  /** Once a prefix raises, the whole loop has raised. */
  lemma RaisePersists<R>(steps: seq<Step<R>>, i: nat)
    requires i <= |steps| && Collect(steps[..i]).None?
    ensures Collect(steps).None?
  {
    CollectRaises(steps[..i]);
    CollectRaises(steps);
    var p :| 0 <= p < i && steps[..i][p].Raise?;
    assert steps[p].Raise?;
  }
}
