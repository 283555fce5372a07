/** The converter fills two dictionaries in a loop, one assignment per step:
    the fields of one index record (`dict_from_cran_lines`) and the index
    itself, keyed by lower-cased package name (the comprehension in `main`).
    In both a later assignment to a key replaces an earlier one and the first
    step that raises ends the whole run. */
module Tables {
  import opened Errors

  /** What one step of such a loop does: nothing, `d[key] = value`, or raise. */
  datatype Step<V> = Skip | Put(key: string, value: V) | Fail(error: Error)

  /** The dictionary left by the steps, or the error of the first failing one. */
  function Fill<V>(steps: seq<Step<V>>): Result<map<string, V>>
    decreases |steps|
  {
    if steps == [] then Ok(map[])
    else
      match Fill(steps[..|steps| - 1])
      case Err(e) => Err(e)
      case Ok(m) =>
        match steps[|steps| - 1]
        case Skip => Ok(m)
        case Put(k, v) => Ok(m[k := v])
        case Fail(e) => Err(e)
  }

  /** Once a prefix of the steps has failed, the later steps change nothing. */
  lemma {:induction false} FillStopsAtError<V>(steps: seq<Step<V>>, i: nat)
    requires i <= |steps| && Fill(steps[..i]).Err?
    ensures Fill(steps) == Fill(steps[..i])
    decreases |steps| - i
  {
    if i < |steps| {
      assert steps[..i + 1][..i] == steps[..i];
      FillStopsAtError(steps, i + 1);
    } else {
      assert steps[..i] == steps;
    }
  }

  /** One more step of the loop, from the dictionary left by the steps before it. */
  lemma FillExtend<V>(steps: seq<Step<V>>, i: nat, m: map<string, V>)
    requires i < |steps| && Fill(steps[..i]) == Ok(m)
    ensures steps[i].Skip? ==> Fill(steps[..i + 1]) == Ok(m)
    ensures steps[i].Put? ==> Fill(steps[..i + 1]) == Ok(m[steps[i].key := steps[i].value])
    ensures steps[i].Fail? ==> Fill(steps) == Err(steps[i].error)
  {
    assert steps[..i + 1][..i] == steps[..i];
    if steps[i].Fail? {
      FillStopsAtError(steps, i + 1);
    }
  }

  /** The loop fails exactly when some step fails, and with the error of the
      first failing step. */
  lemma {:induction false} FillFails<V>(steps: seq<Step<V>>)
    ensures Fill(steps).Err? <==> exists j :: 0 <= j < |steps| && steps[j].Fail?
    ensures Fill(steps).Err? ==>
              exists j :: 0 <= j < |steps| && steps[j].Fail? && Fill(steps).error == steps[j].error
                          && forall i :: 0 <= i < j ==> !steps[i].Fail?
    decreases |steps|
  {
    if steps != [] {
      var front := steps[..|steps| - 1];
      FillFails(front);
      assert forall j :: 0 <= j < |front| ==> front[j] == steps[j];
    }
  }

  /** The keys of the dictionary are exactly the keys some step assigns. */
  lemma {:induction false} FillKeys<V>(steps: seq<Step<V>>)
    requires Fill(steps).Ok?
    ensures forall k :: k in Fill(steps).value <==> exists j :: 0 <= j < |steps| && steps[j].Put? && steps[j].key == k
    decreases |steps|
  {
    if steps != [] {
      var front := steps[..|steps| - 1];
      FillKeys(front);
      assert forall j :: 0 <= j < |front| ==> front[j] == steps[j];
    }
  }

  /** A key holds the value of the last step that assigns it. */
  lemma {:induction false} FillLastWins<V>(steps: seq<Step<V>>, j: nat)
    requires Fill(steps).Ok? && j < |steps| && steps[j].Put?
    requires forall i :: j < i < |steps| ==> !(steps[i].Put? && steps[i].key == steps[j].key)
    ensures steps[j].key in Fill(steps).value
    ensures Fill(steps).value[steps[j].key] == steps[j].value
    decreases |steps|
  {
    var front := steps[..|steps| - 1];
    if j < |front| {
      assert front[j] == steps[j];
      FillLastWins(front, j);
    }
  }
}
