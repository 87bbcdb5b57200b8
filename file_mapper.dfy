/** The FileMapper of file_mapper.cc: a table of mapped files with
    reference counts, where files nobody references stay mapped as a cache
    until the mapped total exceeds MAX_MAPPED.  open, fileSize, mmap,
    munmap and close are not modelled: their results are parameters. */
module FileMapping {
  import opened Wrappers

  /** MAX_MAPPED: MAX_MEMMAPPED_MEMORY_MB (512, config.h) megabytes. */
  const MaxMapped: nat := 512 * 1024 * 1024

  /** An address mmap returned; 0 is NULL. */
  type Ptr = nat

  /** MappedFile: refs, the mapped address, the descriptor, the mapping's
      size and the file name. */
  datatype MappedFile = MappedFile(refs: int, ptr: Ptr, fd: int, size: nat, file: string)

  /** The first entry at or after i mapping file, or -1. */
  function FindFile(fs: seq<MappedFile>, file: string, i: nat): (p: int)
    requires i <= |fs|
    ensures p == -1 || (i <= p < |fs| && fs[p].file == file)
    ensures forall j :: i <= j < |fs| && (p < 0 || j < p) ==> fs[j].file != file
    decreases |fs| - i
  {
    if i == |fs| then -1 else if fs[i].file == file then i else FindFile(fs, file, i + 1)
  }

  /** The first entry at or after i at address ptr, or -1. */
  function FindPtr(fs: seq<MappedFile>, ptr: Ptr, i: nat): (p: int)
    requires i <= |fs|
    ensures p == -1 || (i <= p < |fs| && fs[p].ptr == ptr)
    ensures forall j :: i <= j < |fs| && (p < 0 || j < p) ==> fs[j].ptr != ptr
    decreases |fs| - i
  {
    if i == |fs| then -1 else if fs[i].ptr == ptr then i else FindPtr(fs, ptr, i + 1)
  }

  /** The first entry at or after i with refs == 0: flushCached's victim. */
  function FirstIdle(fs: seq<MappedFile>, i: nat): (p: int)
    requires i <= |fs|
    ensures p == -1 || (i <= p < |fs| && fs[p].refs == 0)
    ensures forall j :: i <= j < |fs| && (p < 0 || j < p) ==> fs[j].refs != 0
    decreases |fs| - i
  {
    if i == |fs| then -1 else if fs[i].refs == 0 then i else FirstIdle(fs, i + 1)
  }

  /** mapped_referenced (busy) or mapped_cached (not busy): the sizes of
      the entries with refs > 0, or of the others. */
  function Mapped(fs: seq<MappedFile>, busy: bool): nat
  {
    if fs == [] then 0
    else Mapped(fs[..|fs| - 1], busy) + (if (fs[|fs| - 1].refs > 0) == busy then fs[|fs| - 1].size else 0)
  }

  function Total(fs: seq<MappedFile>): nat
  {
    Mapped(fs, true) + Mapped(fs, false)
  }

  lemma {:induction false} MappedConcat(a: seq<MappedFile>, b: seq<MappedFile>, busy: bool)
    ensures Mapped(a + b, busy) == Mapped(a, busy) + Mapped(b, busy)
    decreases |b|
  {
    if b != [] {
      var b' := b[..|b| - 1];
      assert (a + b)[..|a + b| - 1] == a + b';
      MappedConcat(a, b', busy);
    } else {
      assert a + b == a;
    }
  }

  predicate NoNegativeRefs(fs: seq<MappedFile>)
  {
    forall i :: 0 <= i < |fs| ==> fs[i].refs >= 0
  }

  function RemoveAt(fs: seq<MappedFile>, p: nat): (r: seq<MappedFile>)
    requires p < |fs|
    ensures |r| == |fs| - 1
  {
    fs[..p] + fs[p + 1..]
  }

  /** Removing an idle entry takes its size off the cached total and
      leaves the referenced total alone. */
  lemma RemoveIdle(fs: seq<MappedFile>, p: nat)
    requires p < |fs| && fs[p].refs == 0
    ensures Mapped(RemoveAt(fs, p), true) == Mapped(fs, true)
    ensures Mapped(RemoveAt(fs, p), false) == Mapped(fs, false) - fs[p].size
  {
    assert fs == fs[..p] + [fs[p]] + fs[p + 1..];
    MappedConcat(fs[..p] + [fs[p]], fs[p + 1..], true);
    MappedConcat(fs[..p] + [fs[p]], fs[p + 1..], false);
    MappedConcat(fs[..p], [fs[p]], true);
    MappedConcat(fs[..p], [fs[p]], false);
    MappedConcat(fs[..p], fs[p + 1..], true);
    MappedConcat(fs[..p], fs[p + 1..], false);
    assert Mapped([fs[p]], false) == fs[p].size by {
      assert [fs[p]][..0] == [];
    }
    assert Mapped([fs[p]], true) == 0 by {
      assert [fs[p]][..0] == [];
    }
  }

  /** With no negative counts, a positive cached total means some entry
      has refs == 0. */
  lemma {:induction false} IdleExists(fs: seq<MappedFile>)
    requires NoNegativeRefs(fs) && Mapped(fs, false) > 0
    ensures FirstIdle(fs, 0) >= 0
    decreases |fs|
  {
    var pre := fs[..|fs| - 1];
    if Mapped(pre, false) > 0 {
      IdleExists(pre);
      var k := FirstIdle(pre, 0);
      assert fs[k].refs == 0;
    } else {
      assert fs[|fs| - 1].refs == 0;
    }
  }

  /** flushCached's effect: while the mapped total is over MAX_MAPPED and
      something is cached, drop the first entry with refs == 0. */
  function Flushed(fs: seq<MappedFile>): (r: seq<MappedFile>)
    requires NoNegativeRefs(fs)
    ensures NoNegativeRefs(r)
    decreases |fs|
  {
    if Total(fs) > MaxMapped && Mapped(fs, false) > 0 then
      IdleExists(fs);
      Flushed(RemoveAt(fs, FirstIdle(fs, 0)))
    else fs
  }

  /** The entries in use, in order. */
  function Busy(fs: seq<MappedFile>): seq<MappedFile>
  {
    if fs == [] then [] else BusyHead(fs[0]) + Busy(fs[1..])
  }

  function BusyHead(f: MappedFile): seq<MappedFile>
  {
    if f.refs > 0 then [f] else []
  }

  lemma {:induction false} BusyConcat(a: seq<MappedFile>, b: seq<MappedFile>)
    ensures Busy(a + b) == Busy(a) + Busy(b)
    decreases |a|
  {
    if a != [] {
      assert (a + b)[0] == a[0];
      assert (a + b)[1..] == a[1..] + b;
      BusyConcat(a[1..], b);
      var h := BusyHead(a[0]);
      calc {
        Busy(a + b);
        h + Busy(a[1..] + b);
        h + (Busy(a[1..]) + Busy(b));
        Busy(a) + Busy(b);
      }
    } else {
      assert a + b == b;
    }
  }

  /** Dropping an idle entry leaves the busy ones, in order. */
  lemma BusyRemoveIdle(fs: seq<MappedFile>, p: nat)
    requires p < |fs| && fs[p].refs == 0
    ensures Busy(RemoveAt(fs, p)) == Busy(fs)
  {
    var a, x, b := fs[..p], fs[p], fs[p + 1..];
    assert fs == a + ([x] + b);
    assert Busy([x]) == [] by {
      assert [x][1..] == [];
    }
    BusyConcat(a, [x] + b);
    BusyConcat([x], b);
    assert Busy([x] + b) == Busy(b);
    BusyConcat(a, b);
  }

  lemma RemoveKeeps(fs: seq<MappedFile>, p: nat)
    requires p < |fs|
    ensures forall x :: x in RemoveAt(fs, p) ==> x in fs
  {
    var r := RemoveAt(fs, p);
    forall x | x in r
      ensures x in fs
    {
      var k :| 0 <= k < |r| && r[k] == x;
      if k < p {
        assert fs[k] == x;
      } else {
        assert fs[k + 1] == x;
      }
    }
  }

  /** flushCached never drops an entry in use: the referenced entries are
      exactly those before, in the same order; no entry is added; and it
      stops at or below MAX_MAPPED unless nothing cached is left. */
  lemma {:induction false} FlushedKeepsBusy(fs: seq<MappedFile>)
    requires NoNegativeRefs(fs)
    ensures Busy(Flushed(fs)) == Busy(fs)
    ensures |Flushed(fs)| <= |fs| && forall x :: x in Flushed(fs) ==> x in fs
    ensures Total(Flushed(fs)) <= MaxMapped || Mapped(Flushed(fs), false) == 0
    decreases |fs|
  {
    if Total(fs) > MaxMapped && Mapped(fs, false) > 0 {
      IdleExists(fs);
      var p := FirstIdle(fs, 0);
      FlushedKeepsBusy(RemoveAt(fs, p));
      BusyRemoveIdle(fs, p);
      RemoveKeeps(fs, p);
    }
  }

  class FileMapper {
    var files: seq<MappedFile>

    /** No count is negative: every unmap and every deallocation pairs with
        an earlier mapFile or refinc. */
    ghost predicate Valid()
      reads this
    {
      NoNegativeRefs(files)
    }

    constructor ()
      ensures Valid() && files == []
    {
      files := [];
    }

    /** mapFile(file): fd, size and addr stand for what open, fileSize and
        mmap return on a miss; the source asserts fd >= 0 and addr != 0. */
    method MapFile(file: string, fd: int, size: nat, addr: Ptr) returns (o: Outcome<Ptr>)
      requires Valid()
      modifies this
      ensures Valid()
      ensures var h := FindFile(old(files), file, 0);
        if h >= 0 then
          o == Done(old(files)[h].ptr) && files == old(files)[h := old(files)[h].(refs := old(files)[h].refs + 1)]
        else if fd < 0 || addr == 0 then
          o == Abort && files == Flushed(old(files))
        else
          o == Done(addr) && files == Flushed(old(files)) + [MappedFile(1, addr, fd, size, file)]
    {
      var i := 0;
      while i < |files|
        invariant 0 <= i <= |files| && files == old(files)
        invariant FindFile(files, file, i) == FindFile(files, file, 0)
      {
        if files[i].file == file {
          files := files[i := files[i].(refs := files[i].refs + 1)];
          return Done(files[i].ptr);
        }
        i := i + 1;
      }
      FlushCached();
      var f := MappedFile(1, addr, fd, size, file);
      if fd < 0 || addr == 0 {
        return Abort;
      }
      files := files + [f];
      return Done(addr);
    }

    /** unmap(ptr): one reference fewer on the first entry at ptr; the
        source asserts there is one. */
    method Unmap(ptr: Ptr) returns (o: Outcome<()>)
      requires Valid()
      requires FindPtr(files, ptr, 0) >= 0 ==> files[FindPtr(files, ptr, 0)].refs > 0
      modifies this
      ensures Valid()
      ensures var h := FindPtr(old(files), ptr, 0);
        if h < 0 then o == Abort && files == old(files)
        else o == Done(()) && files == old(files)[h := old(files)[h].(refs := old(files)[h].refs - 1)]
    {
      var i := 0;
      while i < |files|
        invariant 0 <= i <= |files| && files == old(files)
        invariant FindPtr(files, ptr, i) == FindPtr(files, ptr, 0)
      {
        if files[i].ptr == ptr {
          files := files[i := files[i].(refs := files[i].refs - 1)];
          return Done(());
        }
        i := i + 1;
      }
      return Abort;
    }

    /** refinc(ptr): one reference more on the first entry at ptr; the
        source asserts there is one. */
    method Refinc(ptr: Ptr) returns (o: Outcome<()>)
      requires Valid()
      modifies this
      ensures Valid()
      ensures var h := FindPtr(old(files), ptr, 0);
        if h < 0 then o == Abort && files == old(files)
        else o == Done(()) && files == old(files)[h := old(files)[h].(refs := old(files)[h].refs + 1)]
    {
      var i := 0;
      while i < |files|
        invariant 0 <= i <= |files| && files == old(files)
        invariant FindPtr(files, ptr, i) == FindPtr(files, ptr, 0)
      {
        if files[i].ptr == ptr {
          files := files[i := files[i].(refs := files[i].refs + 1)];
          return Done(());
        }
        i := i + 1;
      }
      return Abort;
    }

    /** getRefs(ptr): the count of the first entry at ptr; the source
        asserts there is one. */
    method GetRefs(ptr: Ptr) returns (o: Outcome<int>)
      ensures var h := FindPtr(files, ptr, 0);
        o == if h < 0 then Abort else Done(files[h].refs)
    {
      var i := 0;
      while i < |files|
        invariant 0 <= i <= |files|
        invariant FindPtr(files, ptr, i) == FindPtr(files, ptr, 0)
      {
        if files[i].ptr == ptr {
          return Done(files[i].refs);
        }
        i := i + 1;
      }
      return Abort;
    }

    /** deallocate(p): munmap and close (not modelled), then erase entry p;
        the source asserts its count is zero. */
    method Deallocate(p: nat)
      requires Valid() && p < |files| && files[p].refs == 0
      modifies this
      ensures Valid()
      ensures files == RemoveAt(old(files), p)
    {
      files := files[..p] + files[p + 1..];
    }

    /** flushCached(): add up the referenced and the cached sizes, then
        drop the first idle entry while over MAX_MAPPED with something
        cached. */
    method FlushCached()
      requires Valid()
      modifies this
      ensures Valid()
      ensures files == Flushed(old(files))
    {
      var referenced, cached := 0, 0;
      var i := 0;
      while i < |files|
        invariant 0 <= i <= |files|
        invariant referenced == Mapped(files[..i], true) && cached == Mapped(files[..i], false)
      {
        assert files[..i + 1][..i] == files[..i];
        if files[i].refs > 0 {
          referenced := referenced + files[i].size;
        } else {
          cached := cached + files[i].size;
        }
        i := i + 1;
      }
      assert files[..i] == files;
      while referenced + cached > MaxMapped && cached > 0
        invariant Valid()
        invariant referenced == Mapped(files, true) && cached == Mapped(files, false)
        invariant Flushed(files) == Flushed(old(files))
        decreases |files|
      {
        IdleExists(files);
        var v := FindIdle();
        RemoveIdle(files, v);
        cached := cached - files[v].size;
        Deallocate(v);
      }
    }

    /** The victim search inside flushCached's loop. */
    method FindIdle() returns (v: int)
      ensures v == FirstIdle(files, 0)
    {
      var i := 0;
      while i < |files|
        invariant 0 <= i <= |files|
        invariant FirstIdle(files, i) == FirstIdle(files, 0)
      {
        if files[i].refs == 0 {
          return i;
        }
        i := i + 1;
      }
      return -1;
    }
  }
}
