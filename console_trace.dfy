/**
 * The console program's main loop: a simulation with 4-byte pages, 16 bytes
 * of memory (4 frames) and 8 pages, driven through its fixed address trace.
 */
module PagingMain {
  import opened PagingModel
  import opened PagingEngine

  /** Runs the trace and reports each access's outcome and the final frames and queue. */
  method ConsoleTrace() returns (outcomes: seq<Outcome>, frames: seq<Option<int>>, queue: seq<int>)
    ensures outcomes == ConsoleOutcomes
    ensures frames == [Some(5), Some(6), Some(1), Some(7)]
    ensures queue == [5, 6, 1, 7]
  {
    var simulation := new PagingSimulation(4, 16, 8);
    var logicalAddresses := [1, 4, 9, 12, 8, 13, 20, 24, 4, 28];
    assert logicalAddresses == ConsoleAddresses;
    ghost var start := simulation.Abstract();
    ConsoleTranslatable();
    outcomes := [];
    var i := 0;
    while i < |logicalAddresses|
      invariant 0 <= i <= |logicalAddresses|
      invariant fresh(simulation.memory) && fresh(simulation.pageTable.frameNumbers)
      invariant fresh(simulation.pageTable.validBit)
      invariant simulation.Valid() && simulation.pageSize == 4 && simulation.numberOfPages == 8
      invariant simulation.memory.Length == 4
      invariant Translatable(logicalAddresses[..i], 4, 8)
      invariant (simulation.Abstract(), outcomes) == Run(start, 4, logicalAddresses[..i])
    {
      RunStep(start, 4, logicalAddresses, i);
      var outcome := simulation.AccessMemory(logicalAddresses[i]);
      outcomes := outcomes + [outcome];
      i := i + 1;
    }
    ConsoleScenario();
    assert logicalAddresses[..i] == ConsoleAddresses;
    frames := simulation.memory[..];
    queue := simulation.pageQueue;
  }
}
