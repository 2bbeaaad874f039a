/**
 * The page table: two parallel arrays indexed by page number.  validBit[p]
 * says whether page p is resident; frameNumbers[p] is its frame, and is
 * stale (left as it was) once the page has been invalidated.
 */
module PageTables {
  import opened PagingModel

  class PageTable {
    const frameNumbers: array<int>
    const validBit: array<bool>

    ghost predicate Valid()
    {
      frameNumbers.Length == validBit.Length
    }

    /** A table for numberOfPages pages, none of them loaded; Java zero-fills the frame numbers. */
    constructor (numberOfPages: nat)
      ensures Valid() && fresh(frameNumbers) && fresh(validBit)
      ensures frameNumbers.Length == numberOfPages
      ensures frameNumbers[..] == seq(numberOfPages, _ => 0)
      ensures validBit[..] == seq(numberOfPages, _ => false)
    {
      frameNumbers := new int[numberOfPages](_ => 0);
      validBit := new bool[numberOfPages](_ => false);
    }

    /** Record that the page is resident in the frame; no other entry changes. */
    method UpdatePageTable(pageNumber: int, frameNumber: int)
      requires Valid() && 0 <= pageNumber < validBit.Length
      modifies frameNumbers, validBit
      ensures frameNumbers[..] == old(frameNumbers[..])[pageNumber := frameNumber]
      ensures validBit[..] == old(validBit[..])[pageNumber := true]
    {
      frameNumbers[pageNumber] := frameNumber;
      validBit[pageNumber] := true;
    }

    method GetFrameNumber(pageNumber: int) returns (frameNumber: int)
      requires Valid() && 0 <= pageNumber < frameNumbers.Length
      ensures frameNumber == frameNumbers[pageNumber]
    {
      frameNumber := frameNumbers[pageNumber];
    }

    method IsPageLoaded(pageNumber: int) returns (loaded: bool)
      requires Valid() && 0 <= pageNumber < validBit.Length
      ensures loaded == validBit[pageNumber]
    {
      loaded := validBit[pageNumber];
    }

    /** Clear the page's valid bit only; its frame number is left stale. */
    method InvalidatePage(pageNumber: int)
      requires Valid() && 0 <= pageNumber < validBit.Length
      modifies validBit
      ensures validBit[..] == old(validBit[..])[pageNumber := false]
      ensures unchanged(frameNumbers)
    {
      validBit[pageNumber] := false;
    }

    /**
     * The per-page snapshot the GUI displays: one entry per page, the
     * frame number when the page is loaded and None ("not loaded") otherwise.
     */
    method GetTableData() returns (data: array<Option<int>>)
      requires Valid()
      ensures fresh(data) && data.Length == frameNumbers.Length
      ensures forall i :: 0 <= i < data.Length ==>
                (data[i].Some? <==> validBit[i]) &&
                (validBit[i] ==> data[i].value == frameNumbers[i])
    {
      data := new Option<int>[frameNumbers.Length];
      var i := 0;
      while i < frameNumbers.Length
        invariant 0 <= i <= frameNumbers.Length
        invariant forall j :: 0 <= j < i ==>
                    (data[j].Some? <==> validBit[j]) &&
                    (validBit[j] ==> data[j].value == frameNumbers[j])
      {
        if validBit[i] {
          data[i] := Some(frameNumbers[i]);
        } else {
          data[i] := None;
        }
        i := i + 1;
      }
    }
  }
}
