/** The page-table code as it runs: tables rewritten in place in physical memory, frames drawn from
    the frame allocator. Each method is proved against the functions of PageTables; `trap` reports that
    the kernel stopped, because the allocator ran into the overflow of a region instead of its end. */
module PagingUnit {
  import opened Alignment
  import opened Frames
  import opened PageTables

  lemma Taken(all: seq<nat>, f: nat, rest: seq<nat>)
    requires all == [f] + rest && PendingOk(all)
    ensures all != [] && f == all[0] && rest == all[1..] && PendingOk(rest)
  {
    assert forall k :: 0 <= k < |rest| ==> rest[k] == all[k + 1];
  }

  class Pager {
    var mem: Mem
    const frames: FrameAllocator

    ghost predicate Valid()
      reads this, frames
    {
      frames.Valid() && PendingOk(frames.Pending())
    }

    ghost function View(): State
      requires Valid()
      reads this, frames
    {
      State(mem, frames.Pending())
    }

    constructor (mem: Mem, frames: FrameAllocator)
      requires frames.Valid() && PendingOk(frames.Pending())
      ensures Valid() && View() == State(mem, frames.Pending()) && this.frames == frames
    {
      this.mem, this.frames := mem, frames;
    }

    /** `allocate_table`: a zeroed frame. */
    method AllocateTable() returns (res: Result<nat>, trap: bool)
      requires Valid()
      modifies this, frames
      ensures Valid() && (frames.Fatal() <==> old(frames.Fatal())) && (trap <==> res.Err? && frames.Fatal())
      ensures match res
        case Ok(f) =>
          var all := old(View().pending);
          all != [] && f == all[0] && View().pending == all[1..] && mem == ZeroPage(old(mem), f)
        case Err(e) => e == OutOfMemory && old(View().pending) == [] && View() == old(View())
    {
      ghost var all := frames.Pending();
      var frame := frames.Allocate();
      if !frame.Frame? {
        return Err(OutOfMemory), frame.Trap?;
      }
      Taken(all, frame.start, frames.Pending());
      var i := 0;
      while i < ENTRIES
        invariant i <= ENTRIES && mem == ZeroWords(old(mem), frame.start, i)
        modifies this
      {
        mem := mem[frame.start + 8 * i := 0];
        i := i + 1;
      }
      return Ok(frame.start), false;
    }

    method EnsureTable(slot: nat, user: bool) returns (res: Result<nat>, trap: bool)
      requires Valid()
      modifies this, frames
      ensures Valid() && (res, View()) == PageTables.EnsureTable(old(View()), slot, user)
      ensures (frames.Fatal() <==> old(frames.Fatal())) && (trap <==> res == Err(OutOfMemory) && frames.Fatal())
    {
      var e := Word(mem, slot);
      if Present(e) {
        return Ok(AddrOf(e)), false;
      }
      res, trap := AllocateTable();
      if res.Ok? {
        mem := mem[slot := TableEntry(res.value, user)];
      }
    }

    method CloneKernelPml4(kernel: nat) returns (res: Result<nat>, trap: bool)
      requires Valid()
      modifies this, frames
      ensures Valid() && (res, View()) == CloneRoot(old(View()), kernel)
      ensures (frames.Fatal() <==> old(frames.Fatal())) && (trap <==> res == Err(OutOfMemory) && frames.Fatal())
    {
      res, trap := AllocateTable();
      if res.Ok? {
        CopyEntries(kernel + 8 * HALF, res.value + 8 * HALF, HALF);
      }
    }

    /** n entries from one place to another. */
    method CopyEntries(src: nat, dst: nat, n: nat)
      modifies this`mem
      ensures mem == CopyWords(old(mem), src, dst, n)
    {
      var before := mem;
      var i := 0;
      while i < n
        invariant i <= n && mem == CopyWords(before, src, dst, i)
      {
        mem := mem[dst + 8 * i := Word(before, src + 8 * i)];
        i := i + 1;
      }
    }

    method MapPage(root: nat, va: nat, frame: u64, flags: u64) returns (res: Result<()>, trap: bool)
      requires Valid()
      modifies this, frames
      ensures Valid() && (res, View()) == PageTables.MapPage(old(View()), root, va, frame, flags)
      ensures (frames.Fatal() <==> old(frames.Fatal())) && (trap <==> res == Err(OutOfMemory) && frames.Fatal())
    {
      if va % PAGE != 0 || frame % PAGE != 0 {
        return Err(AlreadyMapped), false;
      }
      var user := User(flags);
      ghost var pte := Pte(frame, flags);
      ghost var s0 := View();

      var pdpt, pd, pt: Result<nat>;
      pdpt, trap := EnsureTable(Slot(root, va, 4), user);
      if pdpt.Err? {
        return Err(pdpt.error), trap;
      }
      ghost var s1 := View();
      assert MapFrom(s0, root, va, 4, pte, user) == MapFrom(s1, pdpt.value, va, 3, pte, user);

      pd, trap := EnsureTable(Slot(pdpt.value, va, 3), user);
      if pd.Err? {
        return Err(pd.error), trap;
      }
      if Huge(Word(mem, Slot(pdpt.value, va, 3))) {
        return Err(AlreadyMapped), false;
      }
      ghost var s2 := View();
      assert MapFrom(s1, pdpt.value, va, 3, pte, user) == MapFrom(s2, pd.value, va, 2, pte, user);

      pt, trap := EnsureTable(Slot(pd.value, va, 2), user);
      if pt.Err? {
        return Err(pt.error), trap;
      }
      if Huge(Word(mem, Slot(pd.value, va, 2))) {
        return Err(AlreadyMapped), false;
      }
      ghost var s3 := View();
      assert MapFrom(s2, pd.value, va, 2, pte, user) == MapFrom(s3, pt.value, va, 1, pte, user);

      var slot := Slot(pt.value, va, 1);
      if Present(Word(mem, slot)) {
        return Err(AlreadyMapped), false;
      }
      mem := mem[slot := Pte(frame, flags)];
      return Ok(()), false;
    }

    method UnmapPage(root: nat, va: nat)
      requires Valid()
      modifies this
      ensures Valid() && View() == old(View()).(mem := PageTables.UnmapPage(old(mem), root, va))
    {
      if va % PAGE != 0 {
        return;
      }
      var pml4e := Word(mem, Slot(root, va, 4));
      if !Present(pml4e) {
        return;
      }
      var pdpt := AddrOf(pml4e);
      assert UnmapFrom(mem, root, va, 4) == UnmapFrom(mem, pdpt, va, 3);
      var pdpte := Word(mem, Slot(pdpt, va, 3));
      if !Present(pdpte) || Huge(pdpte) {
        return;
      }
      var pd := AddrOf(pdpte);
      assert UnmapFrom(mem, pdpt, va, 3) == UnmapFrom(mem, pd, va, 2);
      var pde := Word(mem, Slot(pd, va, 2));
      if !Present(pde) || Huge(pde) {
        return;
      }
      var pt := AddrOf(pde);
      assert UnmapFrom(mem, pd, va, 2) == UnmapFrom(mem, pt, va, 1);
      mem := mem[Slot(pt, va, 1) := 0];
    }
  }
}
