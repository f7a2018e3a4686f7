/** The program headers of an ELF file, as the loader and the relocator read them. */
module ProgramHeader {
  import opened Bits
  import opened PageEntry
  import opened PageRange

  const LOAD: nat := 1
  const DYNAMIC: nat := 2
  const TLS: nat := 7

  datatype Segment = Segment(kind: nat, lowMem: bool, offset: u64, vaddr: u64, fileSize: u64, memSize: u64) {
    function FileEnd(): nat { offset + fileSize }

    predicate Loadable() { kind == LOAD || kind == TLS }

    /** How many pages the loader allocates for it, and where they end. */
    function PageCount(): nat { CeilDiv(memSize, PAGE_SIZE) }
    function End(): nat { vaddr + PageCount() * PAGE_SIZE }
    function NumberOf(p: nat): nat { PageNumber(vaddr + p * PAGE_SIZE) }

    /** Moved by `base`, its memory range still ends below `2^64`: no addition on it overflows. */
    predicate FitsAt(base: nat) { vaddr + base + memSize < WORD_SIZE }

    predicate Contains(base: nat, addr: nat) { vaddr + base <= addr < vaddr + base + memSize }
  }

  /** The pages of a segment: none for an empty one, else just enough for its memory. */
  lemma PagesNeeded(seg: Segment)
    ensures seg.memSize == 0 ==> seg.PageCount() == 0
    ensures seg.memSize > 0 ==> (seg.PageCount() - 1) * 4096 < seg.memSize <= seg.PageCount() * 4096
  {
  }

  /** The pages end less than a page after the memory, a whole number of pages above its start. */
  lemma PagesEnd(seg: Segment)
    ensures seg.vaddr + seg.memSize <= seg.End() < seg.vaddr + seg.memSize + 4096
    ensures (seg.End() - seg.vaddr) % 4096 == 0
  {
  }
}
