/** SeqManager<T>: the fields its methods update, proved against the functions of SeqRenumbering. */
module SeqManagerClass {
  import opened Bytes
  import opened SeqOrder
  import R = SeqRenumbering

  /** The ordered set is the sequence of its elements from begin() to end(). */
  class SeqManager {
    var base: R.Num
    var maxOutput: R.Num
    var maxInput: R.Num
    var dropped: seq<R.Num>

    function State(): R.Manager
      reads this
    {
      R.Manager(base, maxOutput, maxInput, dropped)
    }

    constructor ()
      ensures State() == R.NEW_MANAGER
    {
      base, maxOutput, maxInput, dropped := 0, 0, 0, [];
    }

    /** std::set::lower_bound: a descent comparing the key with one element after the other. */
    method LowerBound(key: R.Num) returns (i: nat)
      ensures R.Boundary(dropped, key, i)
    {
      var low, high := 0, |dropped|;
      while low < high
        invariant 0 <= low <= high <= |dropped|
        invariant low > 0 ==> R.SeqLower(dropped[low - 1], key)
        invariant high < |dropped| ==> !R.SeqLower(dropped[high], key)
      {
        var mid := (low + high) / 2;
        if R.SeqLower(dropped[mid], key) {
          low := mid + 1;
        } else {
          high := mid;
        }
      }
      return low;
    }

    method Sync(input: R.Num)
      modifies this
      ensures State() == R.Sync(old(State()), input)
    {
      // Update base.
      base := R.Cut(maxOutput - input);
      // Update maxInput.
      maxInput := input;
      // Clear dropped set.
      dropped := [];
    }

    method Drop(input: R.Num) returns (ghost i: nat)
      modifies `dropped
      ensures R.Boundary(old(dropped), input, i) && State() == R.DropAt(old(State()), input, i)
    {
      var at := LowerBound(input);
      i := at;
      // Mark as dropped if 'input' is higher than anyone already processed.
      if R.SeqHigher(input, maxInput) {
        if at == |dropped| || R.SeqLower(input, dropped[at]) {
          dropped := dropped[..at] + [input] + dropped[at..];
        }
      }
    }

    method Offset(offset: R.Num)
      modifies `base
      ensures State() == R.Offset(old(State()), offset)
    {
      base := R.Cut(base + offset);
    }

    /** i and j say where the two searches ended. */
    method Input(input: R.Num) returns (ok: bool, output: R.Num, ghost i: nat, ghost j: nat)
      modifies this
      ensures R.Searched(old(State()), input, i, j)
      ensures (if ok then Some(output) else None, State()) == R.InputAt(old(State()), input, i, j)
    {
      hide R.Cut, R.SeqLower, R.PruneKey;
      var base0 := base;
      ok, output, i, j := false, 0, 0, 0;
      // There are dropped inputs. Synchronize.
      if dropped != [] {
        // Delete dropped inputs older than input - MaxValue/2.
        var it := LowerBound(R.PruneKey(input));
        i := it;
        dropped := dropped[it..];
        base := R.Cut(base - it);
        // Count dropped entries before 'input' in order to adapt the base.
        it := LowerBound(input);
        j := it;
        // Check whether this input was dropped.
        if it < |dropped| && dropped[it] == input {
          return;
        }
        base0 := R.Cut(base - it);
      }
      ok, output := true, R.Cut(input + base0);
      // Keep the maxima, if less than acceptable units higher.
      if R.Cut(input - maxInput) < R.HALF {
        maxInput := input;
      }
      if R.Cut(output - maxOutput) < R.HALF {
        maxOutput := output;
      }
    }
  }
}
