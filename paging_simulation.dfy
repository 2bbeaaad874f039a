/**
 * The simulation object of both copies of the engine: the frame pool, the
 * page table, and the FIFO queue of loaded pages.  Every method is proved to
 * move the object's state exactly as the matching function of PagingModel
 * moves a State, and to keep the residency invariant PagingModel.Inv.
 */
module PagingEngine {
  import opened PagingModel
  import opened PageTables

  /** Frame.loadPage: the frame now holds the page, whatever it held before. */
  method LoadPage(memory: array<Option<int>>, frameNumber: int, pageNumber: int)
    requires 0 <= frameNumber < memory.Length
    modifies memory
    ensures memory[..] == old(memory[..])[frameNumber := Some(pageNumber)]
  {
    memory[frameNumber] := Some(pageNumber);
  }

  class PagingSimulation {
    const memory: array<Option<int>>
    const pageTable: PageTable
    const pageSize: int
    const memorySize: int
    const numberOfPages: int
    var pageQueue: seq<int>

    /** The object's state as a PagingModel.State. */
    ghost function Abstract(): State
      reads this, memory, pageTable.frameNumbers, pageTable.validBit
    {
      State(memory[..], pageTable.frameNumbers[..], pageTable.validBit[..], pageQueue)
    }

    ghost predicate Valid()
      reads this, memory, pageTable.frameNumbers, pageTable.validBit
    {
      pageSize > 0
      && memory.Length == memorySize / pageSize
      && pageTable.Valid()
      && pageTable.validBit.Length == numberOfPages
      && Inv(Abstract())
    }

    /** Every frame empty, every valid bit clear, nothing queued. */
    constructor (pageSize: int, memorySize: int, numberOfPages: int)
      requires pageSize > 0 && memorySize >= 0 && numberOfPages >= 0
      ensures Valid()
      ensures fresh(memory) && fresh(pageTable) && fresh(pageTable.frameNumbers) && fresh(pageTable.validBit)
      ensures this.pageSize == pageSize && this.memorySize == memorySize
      ensures this.numberOfPages == numberOfPages
      ensures memory.Length == memorySize / pageSize
      ensures Abstract() == Initial(memorySize / pageSize, numberOfPages)
    {
      this.pageSize := pageSize;
      this.memorySize := memorySize;
      this.numberOfPages := numberOfPages;
      var frames := new Option<int>[memorySize / pageSize];
      var i := 0;
      while i < frames.Length
        invariant 0 <= i <= frames.Length
        invariant forall f :: 0 <= f < i ==> frames[f] == None
      {
        frames[i] := None;
        i := i + 1;
      }
      memory := frames;
      pageTable := new PageTable(numberOfPages);
      pageQueue := [];
      new;
      assert memory[..] == seq(memorySize / pageSize, _ => None);
    }

    /** loadPageIntoFrame: place the page, record it in the table, append it to the queue. */
    method LoadPageIntoFrame(pageNumber: int, frameNumber: int)
      requires pageTable.Valid() && 0 <= pageNumber < pageTable.validBit.Length
      requires 0 <= frameNumber < memory.Length
      modifies this, memory, pageTable.frameNumbers, pageTable.validBit
      ensures Abstract() == Load(old(Abstract()), pageNumber, frameNumber)
    {
      LoadPage(memory, frameNumber, pageNumber);
      pageTable.UpdatePageTable(pageNumber, frameNumber);
      pageQueue := pageQueue + [pageNumber];
    }

    /**
     * handlePageFault: fill the frame at index |pageQueue| while one is
     * free, otherwise poll the oldest page, invalidate it and reuse its
     * frame.  Returns the evicted page, if any.
     */
    method HandlePageFault(pageNumber: int) returns (victim: Option<int>)
      requires Valid() && 0 <= pageNumber < numberOfPages && !pageTable.validBit[pageNumber]
      requires memory.Length > 0
      modifies this, memory, pageTable.frameNumbers, pageTable.validBit
      ensures Valid()
      ensures (Abstract(), victim) == HandleFault(old(Abstract()), pageNumber)
    {
      ghost var s := Abstract();
      if |pageQueue| < memory.Length {
        LoadPageIntoFrame(pageNumber, |pageQueue|);
        victim := None;
        assert Abstract() == Load(s, pageNumber, |s.queue|);
      } else {
        var pageToReplace := pageQueue[0];
        pageQueue := pageQueue[1..];
        var frameToReplace := pageTable.GetFrameNumber(pageToReplace);
        pageTable.InvalidatePage(pageToReplace);
        assert Abstract() == EvictOldest(s);
        LoadPageIntoFrame(pageNumber, frameToReplace);
        victim := Some(pageToReplace);
        assert Abstract() == Load(EvictOldest(s), pageNumber, s.frameNumbers[s.queue[0]]);
      }
      assert (Abstract(), victim) == HandleFault(s, pageNumber);
    }

    /**
     * accessMemory of the console copy, which has no bounds check: the
     * address must name a page of the process, and a fault needs a frame.
     * A fault is handled and the access retried; the retry hits, so the
     * recursion goes one level deep.
     */
    method AccessMemory(logicalAddress: int) returns (outcome: Outcome)
      requires Valid() && memory.Length > 0
      requires 0 <= JavaDiv(logicalAddress, pageSize) < numberOfPages
      modifies this, memory, pageTable.frameNumbers, pageTable.validBit
      ensures Valid()
      ensures (Abstract(), outcome) == Access(old(Abstract()), pageSize, logicalAddress)
      decreases if pageTable.validBit[JavaDiv(logicalAddress, pageSize)] then 0 else 1
    {
      var pageNumber := JavaDiv(logicalAddress, pageSize);
      var offset := JavaRem(logicalAddress, pageSize);
      var loaded := pageTable.IsPageLoaded(pageNumber);
      if loaded {
        var frameNumber := pageTable.GetFrameNumber(pageNumber);
        outcome := Hit(pageNumber, offset, frameNumber);
      } else {
        var victim := HandlePageFault(pageNumber);
        var retry := AccessMemory(logicalAddress);
        outcome := Fault(pageNumber, offset, retry.frame, victim);
      }
    }

    /**
     * accessMemory of the GUI copy: an address at or above the process size
     * is rejected and nothing changes; any other address is translated as
     * in the console copy, with the same recursive retry.
     */
    method AccessMemoryChecked(logicalAddress: int) returns (outcome: Outcome)
      requires Valid()
      requires logicalAddress < pageSize * numberOfPages ==>
                 0 <= JavaDiv(logicalAddress, pageSize) < numberOfPages && memory.Length > 0
      modifies this, memory, pageTable.frameNumbers, pageTable.validBit
      ensures Valid()
      ensures (Abstract(), outcome) == CheckedAccess(old(Abstract()), pageSize, logicalAddress)
      decreases if logicalAddress < pageSize * numberOfPages &&
                   pageTable.validBit[JavaDiv(logicalAddress, pageSize)] then 0 else 1
    {
      if logicalAddress >= pageSize * numberOfPages {
        return OutOfBounds;
      }
      var pageNumber := JavaDiv(logicalAddress, pageSize);
      var offset := JavaRem(logicalAddress, pageSize);
      var loaded := pageTable.IsPageLoaded(pageNumber);
      if loaded {
        var frameNumber := pageTable.GetFrameNumber(pageNumber);
        outcome := Hit(pageNumber, offset, frameNumber);
      } else {
        var victim := HandlePageFault(pageNumber);
        var retry := AccessMemoryChecked(logicalAddress);
        outcome := Fault(pageNumber, offset, retry.frame, victim);
      }
    }

    /**
     * The rows displayPageTable of the GUI copy hands to its table: one per
     * page, showing a frame exactly for the resident pages, and a frame that
     * really holds the page.
     */
    method PageTableData() returns (data: array<Option<int>>)
      requires Valid()
      ensures fresh(data) && data.Length == numberOfPages
      ensures forall p :: 0 <= p < numberOfPages ==>
                (data[p].Some? <==> p in Resident(Abstract())) &&
                (data[p].Some? ==> 0 <= data[p].value < memory.Length && memory[data[p].value] == Some(p))
    {
      data := pageTable.GetTableData();
    }
  }
}
