/** Limits and offsets of list queries (internal/model/pagination.go). */
module Paging {
  const DEFAULT_PAGE_SIZE := 100
  const MAX_PAGE_SIZE := 1000

  function ClampedLimit(limit: int): (n: nat)
    ensures 1 <= n <= MAX_PAGE_SIZE
    ensures 1 <= limit <= MAX_PAGE_SIZE ==> n == limit
  {
    if limit <= 0 then DEFAULT_PAGE_SIZE else if limit > MAX_PAGE_SIZE then MAX_PAGE_SIZE else limit
  }

  /** What a listing with a zero filter returns: its limit is clamped to the default. */
  function FirstPage<T>(all: seq<T>): seq<T> {
    if |all| <= ClampedLimit(0) then all else all[..ClampedLimit(0)]
  }

  class Pagination {
    var limit: int
    var offset: int

    constructor (limit: int, offset: int)
      ensures this.limit == limit && this.offset == offset
    {
      this.limit, this.offset := limit, offset;
    }

    method Clamp()
      modifies this
      ensures limit == ClampedLimit(old(limit)) && offset == if old(offset) < 0 then 0 else old(offset)
      ensures (old(limit) <= 0 ==> limit == 100) && (old(limit) > 1000 ==> limit == 1000)
    {
      if limit <= 0 { limit := DEFAULT_PAGE_SIZE; }
      if limit > MAX_PAGE_SIZE { limit := MAX_PAGE_SIZE; }
      if offset < 0 { offset := 0; }
    }
  }
}
