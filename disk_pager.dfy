/** A one-page write-back cache over a backing file of complex amplitudes
    (runtime/disk_pager.cpp). The temporary file is modelled as the sequence
    of values it holds; positioning, byte counts and the stream calls are not
    part of the model. */
module Paging {
  import opened ComplexNumbers
  import opened Wrappers

  /** A run of n zero amplitudes. */
  function Zeros(n: nat): (r: seq<Complex>)
    ensures |r| == n && forall i :: 0 <= i < n ==> r[i] == Zero
  {
    seq(n, _ => Zero)
  }

  function Min(a: nat, b: nat): nat {
    if a <= b then a else b
  }

  /** `s` with the block `b` written over it from position `base`. */
  function Overlay(s: seq<Complex>, base: nat, b: seq<Complex>): (r: seq<Complex>)
    requires base + |b| <= |s|
    ensures |r| == |s|
    ensures forall i :: 0 <= i < |s| ==> r[i] == if base <= i < base + |b| then b[i - base] else s[i]
  {
    s[..base] + b + s[base + |b|..]
  }

  class DiskPager {
    /** The backing file, one entry per logical index. */
    var file: seq<Complex>
    var totalSize: nat
    var pageSize: nat
    /** The resident page; None is the source's sentinel `static_cast<size_t>(-1)`. */
    var currentPage: Option<nat>
    var buffer: array<Complex>
    var dirty: bool

    /** First logical index of page p. */
    function Base(p: nat): nat
      reads this
    {
      p * pageSize
    }

    /** Number of elements page p holds: `min(page_size, total_size - p * page_size)`. */
    function Count(p: nat): nat
      reads this
      requires Base(p) <= totalSize
    {
      Min(pageSize, totalSize - Base(p))
    }

    ghost predicate Valid()
      reads this, buffer
    {
      |file| == totalSize && buffer.Length == pageSize &&
      (pageSize > 0 || totalSize == 0) &&
      (currentPage.None? ==> !dirty) &&
      (currentPage.Some? ==>
        Base(currentPage.value) < totalSize &&
        Base(currentPage.value) + Count(currentPage.value) <= totalSize &&
        (!dirty ==> buffer[..Count(currentPage.value)] ==
                    file[Base(currentPage.value)..Base(currentPage.value) + Count(currentPage.value)]))
    }

    /** The logical contents: the file with the resident page's buffer over it. */
    ghost function Contents(): (c: seq<Complex>)
      reads this, buffer
      requires Valid()
      ensures |c| == totalSize
    {
      match currentPage
      case None => file
      case Some(p) => Overlay(file, Base(p), buffer[..Count(p)])
    }

    /** `DiskPager(size, page_elems)`: a zero-filled file, no resident page. The
        zero-filling loop advances by `page_elems`, so it only ends when that is
        positive or there is nothing to fill. */
    constructor (size: nat, pageElems: nat)
      requires pageElems > 0 || size == 0
      ensures Valid() && fresh(buffer)
      ensures totalSize == size && pageSize == pageElems
      ensures currentPage == None && !dirty
      ensures Contents() == Zeros(size)
    {
      totalSize := size;
      pageSize := pageElems;
      currentPage := None;
      dirty := false;
      buffer := new Complex[pageElems](_ => Zero);
      var f: seq<Complex> := [];
      var off := 0;
      while off < size
        invariant f == Zeros(Min(off, size))
        decreases size - off
      {
        var count := Min(pageElems, size - off);
        f := f + Zeros(count);
        off := off + pageElems;
      }
      file := f;
      new;
    }

    /** `flush`: write a dirty resident page back. */
    method Flush()
      requires Valid()
      modifies this
      ensures Valid() && buffer == old(buffer)
      ensures totalSize == old(totalSize) && pageSize == old(pageSize) && currentPage == old(currentPage)
      ensures !dirty
      ensures Contents() == old(Contents())
      ensures currentPage.Some? ==> file == Contents()
      ensures !old(dirty) ==> file == old(file)
    {
      if currentPage.None? || !dirty {
        return;
      }
      var p := currentPage.value;
      var count := Min(pageSize, totalSize - p * pageSize);
      file := Overlay(file, p * pageSize, buffer[..count]);
      dirty := false;
    }

    /** `load_page`: make page p resident, flushing the previous one first. */
    method LoadPage(p: nat)
      requires Valid() && Base(p) < totalSize
      modifies this, buffer
      ensures Valid() && buffer == old(buffer)
      ensures totalSize == old(totalSize) && pageSize == old(pageSize)
      ensures currentPage == Some(p)
      ensures Contents() == old(Contents())
      ensures dirty == (old(dirty) && old(currentPage) == Some(p))
      ensures old(currentPage) == Some(p) ==> file == old(file) && buffer[..] == old(buffer[..])
    {
      if currentPage != Some(p) {
        Flush();
        Fetch(p);
      }
    }

    /** The part of `load_page` after the flush: with the file up to date,
        read page p into the buffer. */
    method Fetch(p: nat)
      requires Valid() && !dirty && Base(p) < totalSize && Contents() == file
      modifies this, buffer
      ensures Valid() && buffer == old(buffer) && file == old(file)
      ensures totalSize == old(totalSize) && pageSize == old(pageSize)
      ensures currentPage == Some(p) && !dirty
      ensures Contents() == old(file)
    {
      currentPage := Some(p);
      var base := p * pageSize;
      var count := Min(pageSize, totalSize - base);
      assert base == Base(p) && count == Count(p);
      CopyIn(base, count);
      OverlaySame(file, base, buffer[..count]);
    }

    /** The read of `load_page`: the first `count` buffer slots take the file's
        values from position `base`. */
    method CopyIn(base: nat, count: nat)
      requires base + count <= |file| && count <= buffer.Length
      modifies buffer
      ensures buffer[..count] == file[base..base + count]
    {
      var j := 0;
      while j < count
        invariant 0 <= j <= count
        invariant buffer[..j] == file[base..base + j]
      {
        buffer[j] := file[base + j];
        j := j + 1;
        assert buffer[..j] == buffer[..j - 1] + [file[base + j - 1]];
      }
    }

    /** `read(idx)`: the value at logical index idx. */
    method Read(idx: nat) returns (v: Complex)
      requires Valid() && idx < totalSize
      modifies this, buffer
      ensures Valid() && buffer == old(buffer)
      ensures totalSize == old(totalSize) && pageSize == old(pageSize)
      ensures v == old(Contents())[idx]
      ensures Contents() == old(Contents())
      ensures currentPage == Some(idx / pageSize)
      ensures dirty == (old(dirty) && old(currentPage) == Some(idx / pageSize))
    {
      var page := idx / pageSize;
      PageOf(idx, pageSize);
      LoadPage(page);
      var local := idx % pageSize;
      v := buffer[local];
      OverlayAt(file, Base(page), buffer[..Count(page)], idx);
    }

    /** `write(idx, v)`: store v at logical index idx; the page becomes dirty. */
    method Write(idx: nat, v: Complex)
      requires Valid() && idx < totalSize
      modifies this, buffer
      ensures Valid() && buffer == old(buffer)
      ensures totalSize == old(totalSize) && pageSize == old(pageSize)
      ensures Contents() == old(Contents())[idx := v]
      ensures currentPage == Some(idx / pageSize) && dirty
    {
      var page := idx / pageSize;
      PageOf(idx, pageSize);
      LoadPage(page);
      ghost var b := buffer[..Count(page)];
      var local := idx % pageSize;
      buffer[local] := v;
      dirty := true;
      assert buffer[..Count(page)] == b[local := v];
      OverlayUpdate(file, Base(page), b, local, v);
    }

    /** `reset`: flush, zero the whole file, drop the resident page. */
    method Reset()
      requires Valid()
      modifies this
      ensures Valid() && buffer == old(buffer)
      ensures totalSize == old(totalSize) && pageSize == old(pageSize)
      ensures currentPage == None && !dirty
      ensures Contents() == Zeros(totalSize)
    {
      Flush();
      var f: seq<Complex> := [];
      var off := 0;
      while off < totalSize
        invariant f == Zeros(Min(off, totalSize))
        decreases totalSize - off
      {
        var count := Min(pageSize, totalSize - off);
        f := f + Zeros(count);
        off := off + pageSize;
      }
      file := f;
      currentPage := None;
      dirty := false;
    }
  }

  /** Writing into the block is writing into the overlaid sequence. */
  lemma OverlayUpdate(s: seq<Complex>, base: nat, b: seq<Complex>, j: nat, v: Complex)
    requires base + |b| <= |s| && j < |b|
    ensures Overlay(s, base, b[j := v]) == Overlay(s, base, b)[base + j := v]
  {
    var l := Overlay(s, base, b[j := v]);
    var r := Overlay(s, base, b)[base + j := v];
    forall i | 0 <= i < |s|
      ensures l[i] == r[i]
    {
    }
  }

  /** Inside the block, the overlaid sequence reads the block. */
  lemma OverlayAt(s: seq<Complex>, base: nat, b: seq<Complex>, i: nat)
    requires base + |b| <= |s| && base <= i < base + |b|
    ensures Overlay(s, base, b)[i] == b[i - base]
  {
  }

  /** Overlaying a block that is already there changes nothing. */
  lemma OverlaySame(s: seq<Complex>, base: nat, b: seq<Complex>)
    requires base + |b| <= |s| && b == s[base..base + |b|]
    ensures Overlay(s, base, b) == s
  {
    assert s == s[..base] + s[base..base + |b|] + s[base + |b|..];
  }

  /** The page and slot of an index: `idx / page_size` and `idx % page_size`. */
  lemma PageOf(idx: nat, ps: nat)
    requires ps > 0
    ensures (idx / ps) * ps <= idx < (idx / ps) * ps + ps
    ensures idx % ps == idx - (idx / ps) * ps
  {
  }
}
