/** Things that start, last and end along a run. */
module Lasting {

  /** What one step of a run means to something that lasts: it starts it, it ends it. */
  datatype Happening = Happening(starts: bool, ends: bool)

  /** Something started, and nothing after that ended it. */
  ghost predicate Since(steps: seq<Happening>) {
    exists i :: 0 <= i < |steps| && steps[i].starts && LastsFrom(steps, i)
  }

  ghost predicate LastsFrom(steps: seq<Happening>, i: int) {
    forall j :: i < j < |steps| && 0 <= j ==> !steps[j].ends
  }

  lemma SinceStep(steps: seq<Happening>, last: Happening)
    ensures Since(steps + [last]) <==> last.starts || (Since(steps) && !last.ends)
  {
    var all := steps + [last];
    if last.starts {
      assert all[|steps|].starts && LastsFrom(all, |steps|);
    } else if Since(steps) && !last.ends {
      var i :| 0 <= i < |steps| && steps[i].starts && LastsFrom(steps, i);
      assert all[i].starts && LastsFrom(all, i);
    }
    if Since(all) && !last.starts {
      var i :| 0 <= i < |all| && all[i].starts && LastsFrom(all, i);
      assert steps[i].starts && !all[|steps|].ends;
      assert forall j :: i < j < |steps| ==> steps[j] == all[j];
      assert LastsFrom(steps, i);
    }
  }

  lemma LastsFront(first: Happening, steps: seq<Happening>, i: int)
    requires -1 <= i < |steps|
    ensures LastsFrom([first] + steps, i + 1) <==> LastsFrom(steps, i)
    ensures LastsFrom([first] + steps, -1) <==> !first.ends && LastsFrom(steps, -1)
  {
    var all := [first] + steps;
    assert all[0] == first && forall j :: 0 <= j < |steps| ==> all[j + 1] == steps[j];
    assert forall j :: 1 <= j < |all| ==> steps[j - 1] == all[j];
  }

  /** The same with a step in front. */
  lemma SinceFront(first: Happening, steps: seq<Happening>)
    ensures Since([first] + steps) <==> Since(steps) || (first.starts && LastsFrom(steps, -1))
    ensures LastsFrom([first] + steps, -1) <==> !first.ends && LastsFrom(steps, -1)
  {
    var all := [first] + steps;
    LastsFront(first, steps, -1);
    if first.starts && LastsFrom(steps, -1) {
      assert all[0].starts && LastsFrom(all, 0);
    } else if Since(steps) {
      var i :| 0 <= i < |steps| && steps[i].starts && LastsFrom(steps, i);
      LastsFront(first, steps, i);
      assert all[i + 1].starts && LastsFrom(all, i + 1);
    }
    if Since(all) {
      var i :| 0 <= i < |all| && all[i].starts && LastsFrom(all, i);
      LastsFront(first, steps, i - 1);
      assert i > 0 ==> steps[i - 1].starts;
    }
  }
}
