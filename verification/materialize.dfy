/** `generateCommandOrder`: writing the request's tasks into a command
    buffer at the positions the sort gave their names. The buffer is
    passed in and written in place in Go; here it goes in as a sequence
    and comes back, together with the error, as a `Filled` value. */
module Materialize {
  import opened Basics
  import opened Errors
  import opened Jobs

  /** The buffer after the call, and the error it returned (`None` for
      nil). On an error the writes made before it stay in the buffer. */
  datatype Filled = Filled(buffer: seq<Command>, err: Option<Error>)

  /** Index `k` is the last occurrence of its name in `s`. */
  predicate IsLastIndex(s: seq<string>, k: int)
    requires 0 <= k < |s|
  {
    forall j | k < j < |s| :: s[j] != s[k]
  }

  /** The `tmp` map: each name of `sorted` to an index holding it. Later
      indices overwrite earlier ones, so the last occurrence wins. */
  function Positions(sorted: seq<string>): (m: map<string, nat>)
    ensures m.Keys == Elems(sorted)
    ensures forall n | n in m :: m[n] < |sorted| && sorted[m[n]] == n && IsLastIndex(sorted, m[n])
    decreases |sorted|
  {
    if |sorted| == 0 then map[]
    else
      var init := sorted[..|sorted| - 1];
      assert Elems(sorted) == Elems(init) + {sorted[|sorted| - 1]} by {
        assert sorted == init + [sorted[|sorted| - 1]];
      }
      Positions(init)[sorted[|sorted| - 1] := |sorted| - 1]
  }

  /** Index `k` of `sorted` is the one the map keeps for its name exactly
      when it is that name's last occurrence. */
  lemma PositionsAtLastIndex(sorted: seq<string>, k: nat)
    requires k < |sorted|
    ensures Positions(sorted)[sorted[k]] == k <==> IsLastIndex(sorted, k)
  {
    var m := Positions(sorted);
    assert sorted[k] in Elems(sorted);
  }

  /** All map entries fall inside a buffer of `size` slots. */
  predicate FitsIn(positions: map<string, nat>, size: nat)
  {
    forall n | n in positions :: positions[n] < size
  }

  /** The loop over the request's tasks, in request order: look the name
      up, fail with the wrapped not-found error when it is absent, write
      the task's command at the looked-up index otherwise. */
  function WriteTasks(positions: map<string, nat>, tasks: seq<Task>, buffer: seq<Command>): (r: Filled)
    requires FitsIn(positions, |buffer|)
    ensures |r.buffer| == |buffer|
    ensures r.err.None? <==> forall i | 0 <= i < |tasks| :: tasks[i].name in positions
    ensures r.err.Some? ==> Is(r.err.value, RequestTaskDoesNotExist)
    decreases |tasks|
  {
    if |tasks| == 0 then Filled(buffer, None)
    else if tasks[0].name !in positions then Filled(buffer, Some(TaskMissingError(tasks[0].name)))
    else
      var r := WriteTasks(positions, tasks[1..], buffer[positions[tasks[0].name] := CommandFor(tasks[0])]);
      assert (forall i | 0 <= i < |tasks| :: tasks[i].name in positions) <==>
             (forall i | 0 <= i < |tasks[1..]| :: tasks[1..][i].name in positions) by {
        if forall i | 0 <= i < |tasks[1..]| :: tasks[1..][i].name in positions {
          forall i | 0 <= i < |tasks| ensures tasks[i].name in positions {
            if i > 0 { assert tasks[i] == tasks[1..][i - 1]; }
          }
        }
      }
      r
  }

  /** `generateCommandOrder(sortedTasks, requestTasks, commandBuffer)`. */
  function GenerateCommandOrder(sorted: seq<string>, tasks: seq<Task>, buffer: seq<Command>): (r: Filled)
    ensures |r.buffer| == |buffer|
    ensures |sorted| != |buffer| ==> r == Filled(buffer, Some(Bare(CommandBufferSize)))
    ensures r.err.None? <==>
              |sorted| == |buffer| && forall i | 0 <= i < |tasks| :: tasks[i].name in sorted
    ensures |sorted| == |buffer| && r.err.Some? ==> Is(r.err.value, RequestTaskDoesNotExist)
  {
    if |sorted| != |buffer| then Filled(buffer, Some(Bare(CommandBufferSize)))
    else WriteTasks(Positions(sorted), tasks, buffer)
  }

  // ---------------------------------------------------------------------
  // Where each task lands.

  /** Index of the last task of `tasks` named `n`: later tasks with the
      same name overwrite the slot. */
  function LastNamed(tasks: seq<Task>, n: string): (i: nat)
    requires n in TaskNames(tasks)
    ensures i < |tasks| && tasks[i].name == n
    ensures forall j | i < j < |tasks| :: tasks[j].name != n
    decreases |tasks|
  {
    var init := tasks[..|tasks| - 1];
    if tasks[|tasks| - 1].name == n then |tasks| - 1
    else
      assert n in TaskNames(init) by {
        var t :| t in tasks && t.name == n;
        var i :| 0 <= i < |tasks| && tasks[i] == t;
        assert init[i] == t;
      }
      LastNamed(init, n)
  }

  /** What slot `k` of a successfully filled buffer holds: the command of
      the last task named `sorted[k]` when `k` is that name's last index
      in `sorted`, and the slot's old value otherwise. */
  function ExpectedSlot(sorted: seq<string>, tasks: seq<Task>, buffer: seq<Command>, k: nat): Command
    requires k < |sorted| && k < |buffer|
  {
    if sorted[k] in TaskNames(tasks) && IsLastIndex(sorted, k)
    then CommandFor(tasks[LastNamed(tasks, sorted[k])])
    else buffer[k]
  }

  /** Dropping the first task: the last task of a name further on is the
      same task, one index later. */
  lemma LastNamedTail(tasks: seq<Task>, n: string)
    requires |tasks| > 0 && n in TaskNames(tasks[1..])
    ensures n in TaskNames(tasks) && LastNamed(tasks, n) == 1 + LastNamed(tasks[1..], n)
  {
    var i := LastNamed(tasks[1..], n);
    assert tasks[1 + i] == tasks[1..][i];
    assert n in TaskNames(tasks);
  }

  /** A name only the first task has is last held by it. */
  lemma LastNamedHead(tasks: seq<Task>)
    requires |tasks| > 0 && tasks[0].name !in TaskNames(tasks[1..])
    ensures tasks[0].name in TaskNames(tasks) && LastNamed(tasks, tasks[0].name) == 0
  {
    var n := tasks[0].name;
    assert n in TaskNames(tasks);
  }

  /** The loop's writes, slot by slot: every slot ends up as
      `ExpectedSlot` describes. */
  lemma {:induction false} WriteTasksSlots(sorted: seq<string>, tasks: seq<Task>, buffer: seq<Command>, k: nat)
    requires |sorted| == |buffer| && k < |buffer|
    requires forall i | 0 <= i < |tasks| :: tasks[i].name in sorted
    ensures WriteTasks(Positions(sorted), tasks, buffer).buffer[k] == ExpectedSlot(sorted, tasks, buffer, k)
    decreases |tasks|
  {
    var pos := Positions(sorted);
    if |tasks| > 0 {
      var t := tasks[0];
      assert t.name in pos by { assert t.name in Elems(sorted); }
      var buffer' := buffer[pos[t.name] := CommandFor(t)];
      forall i | 0 <= i < |tasks[1..]| ensures tasks[1..][i].name in sorted {
        assert tasks[1..][i] == tasks[i + 1];
      }
      WriteTasksSlots(sorted, tasks[1..], buffer', k);
      PositionsAtLastIndex(sorted, k);
      var n := sorted[k];
      if n in TaskNames(tasks[1..]) {
        LastNamedTail(tasks, n);
      } else if pos[t.name] == k {
        LastNamedHead(tasks);
      }
    }
  }

  /** On success, each task lands at the last index of its name in the
      sorted names (the last task of a repeated name wins), and every slot
      whose index is not such a position keeps its old value. */
  lemma GenerateCommandOrderPlacesTasks(sorted: seq<string>, tasks: seq<Task>, buffer: seq<Command>)
    ensures var r := GenerateCommandOrder(sorted, tasks, buffer);
            r.err.None? ==> forall k | 0 <= k < |buffer| :: r.buffer[k] == ExpectedSlot(sorted, tasks, buffer, k)
  {
    var r := GenerateCommandOrder(sorted, tasks, buffer);
    if r.err.None? {
      forall k | 0 <= k < |buffer| ensures r.buffer[k] == ExpectedSlot(sorted, tasks, buffer, k) {
        WriteTasksSlots(sorted, tasks, buffer, k);
      }
    }
  }

  /** When the sorted names are exactly the distinct task names, the
      filled buffer lines up index for index with them. */
  lemma GenerateCommandOrderAligns(sorted: seq<string>, tasks: seq<Task>, buffer: seq<Command>)
    requires Distinct(sorted) && Elems(sorted) == TaskNames(tasks) && |buffer| == |sorted|
    ensures var r := GenerateCommandOrder(sorted, tasks, buffer);
            && r.err.None?
            && forall k | 0 <= k < |sorted| ::
                 sorted[k] in TaskNames(tasks) &&
                 r.buffer[k] == CommandFor(tasks[LastNamed(tasks, sorted[k])]) &&
                 r.buffer[k].name == sorted[k]
  {
    var r := GenerateCommandOrder(sorted, tasks, buffer);
    forall i | 0 <= i < |tasks| ensures tasks[i].name in sorted {
      assert tasks[i].name in TaskNames(tasks);
    }
    GenerateCommandOrderPlacesTasks(sorted, tasks, buffer);
    forall k | 0 <= k < |sorted|
      ensures sorted[k] in TaskNames(tasks) && r.buffer[k] == CommandFor(tasks[LastNamed(tasks, sorted[k])])
    {
      assert sorted[k] in Elems(sorted);
      assert IsLastIndex(sorted, k);
    }
  }

  // ---------------------------------------------------------------------
  // Failures.

  /** Index of the first task whose name `sorted` lacks, or `|tasks|`. */
  function FirstMissing(sorted: seq<string>, tasks: seq<Task>): (i: nat)
    ensures i <= |tasks|
    ensures forall j | 0 <= j < i :: tasks[j].name in sorted
    ensures i < |tasks| ==> tasks[i].name !in sorted
    decreases |tasks|
  {
    if |tasks| == 0 || tasks[0].name !in sorted then 0
    else
      var i := FirstMissing(sorted, tasks[1..]);
      assert forall j | 0 < j <= i :: tasks[j] == tasks[1..][j - 1];
      1 + i
  }

  /** Running the loop on a prefix and then on the rest. */
  lemma {:induction false} WriteTasksAppend(positions: map<string, nat>, ts1: seq<Task>, ts2: seq<Task>, buffer: seq<Command>)
    requires FitsIn(positions, |buffer|)
    ensures var r1 := WriteTasks(positions, ts1, buffer);
            WriteTasks(positions, ts1 + ts2, buffer) ==
              if r1.err.Some? then r1 else WriteTasks(positions, ts2, r1.buffer)
    decreases |ts1|
  {
    if |ts1| > 0 {
      assert (ts1 + ts2)[0] == ts1[0];
      assert (ts1 + ts2)[1..] == ts1[1..] + ts2;
      if ts1[0].name in positions {
        WriteTasksAppend(positions, ts1[1..], ts2, buffer[positions[ts1[0].name] := CommandFor(ts1[0])]);
      }
    } else {
      assert ts1 + ts2 == ts2;
    }
  }

  /** A missing task name stops the loop: the error names the first task
      whose name the sort did not produce, and the buffer holds exactly
      the writes of the tasks before it. */
  lemma GenerateCommandOrderStopsAtMissing(sorted: seq<string>, tasks: seq<Task>, buffer: seq<Command>)
    requires |sorted| == |buffer|
    ensures var i := FirstMissing(sorted, tasks);
            var r := GenerateCommandOrder(sorted, tasks, buffer);
            r.err.Some? ==>
              && i < |tasks|
              && GenerateCommandOrder(sorted, tasks[..i], buffer).err.None?
              && r == Filled(GenerateCommandOrder(sorted, tasks[..i], buffer).buffer,
                             Some(TaskMissingError(tasks[i].name)))
  {
    var i := FirstMissing(sorted, tasks);
    var pos := Positions(sorted);
    if i < |tasks| {
      assert tasks == tasks[..i] + tasks[i..];
      WriteTasksAppend(pos, tasks[..i], tasks[i..], buffer);
      assert tasks[i..][0] == tasks[i];
      assert tasks[i].name !in pos by { assert pos.Keys == Elems(sorted); }
    }
  }
}
