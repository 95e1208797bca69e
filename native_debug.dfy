/** The native `_debug` module of `hpy.universal`, seen only at its interface:
    `new_generation()` and `get_open_handles(generation)`. Its handle table,
    counter and queue are not part of this model. What it answers is left to
    two arbitrary response functions over the history of calls, fixed when the
    module is created; every call it receives is recorded in `log`, so that
    callers can state which calls they made, with which arguments, and what
    came back. */
module NativeDebug {

  /** One call to the native module, with its argument and its answer. */
  datatype Call<L> =
    | NewGenerationCall(generation: int)
    | GetOpenHandlesCall(generation: int, leaks: seq<L>)

  class DebugModule<L> {
    /** Every call made so far, oldest first. */
    var log: seq<Call<L>>
    /** The answer of `new_generation()` given the calls before it. */
    const generationOracle: seq<Call<L>> -> int
    /** The answer of `get_open_handles(g)` given the calls before it and g. */
    const handlesOracle: (seq<Call<L>>, int) -> seq<L>

    /** The answer recorded for a call is the one its response function gives
        for the calls before it. */
    ghost predicate Answered(before: seq<Call<L>>, call: Call<L>)
    {
      match call
      case NewGenerationCall(g) => g == generationOracle(before)
      case GetOpenHandlesCall(g, leaks) => leaks == handlesOracle(before, g)
    }

    /** Every call in the log was answered by the response functions. */
    ghost predicate Valid()
      reads this
    {
      forall i :: 0 <= i < |log| ==> Answered(log[..i], log[i])
    }

    constructor (generationOracle: seq<Call<L>> -> int, handlesOracle: (seq<Call<L>>, int) -> seq<L>)
      ensures Valid() && log == []
      ensures this.generationOracle == generationOracle && this.handlesOracle == handlesOracle
    {
      log := [];
      this.generationOracle := generationOracle;
      this.handlesOracle := handlesOracle;
    }

    /** Appends an answered call to the log. */
    method Record(call: Call<L>)
      requires Valid() && Answered(log, call)
      modifies this
      ensures Valid()
      ensures log == old(log) + [call]
    {
      var before := log;
      log := log + [call];
      assert forall i :: 0 <= i < |before| ==> log[..i] == before[..i] && log[i] == before[i];
      assert log[..|before|] == before;
    }

    /** `_debug.new_generation()`. */
    method NewGeneration() returns (g: int)
      requires Valid()
      modifies this
      ensures Valid()
      ensures g == generationOracle(old(log))
      ensures log == old(log) + [NewGenerationCall(g)]
    {
      g := generationOracle(log);
      Record(NewGenerationCall(g));
    }

    /** `_debug.get_open_handles(generation)`. */
    method GetOpenHandles(generation: int) returns (leaks: seq<L>)
      requires Valid()
      modifies this
      ensures Valid()
      ensures leaks == handlesOracle(old(log), generation)
      ensures log == old(log) + [GetOpenHandlesCall(generation, leaks)]
    {
      leaks := handlesOracle(log, generation);
      Record(GetOpenHandlesCall(generation, leaks));
    }
  }
}
