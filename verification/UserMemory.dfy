/** The process's memory as Ass2/entry.c works on it: page-table words written in
    place, frames taken from and given to the allocator's lists. */
module UserMemory {
  import opened Options
  import opened PageTables
  import opened AddressSpace

  lemma NoneLeft(t: Tables, root: Pfn, free: seq<Pfn>, cur: int)
    ensures FreePages(t, root, free, cur, 0) == (t, free)
  {
  }

  class Process {
    var tables: Tables
    var pgd: Pfn
    var tableFree: seq<Pfn>
    var pageFree: seq<Pfn>
    var data: Segment
    var rodata: Segment
    var stack: Segment

    /** Every table frame holds 512 words. */
    ghost predicate Valid()
      reads this
    {
      forall f :: f in tables ==> |tables[f]| == ENTRIES
    }

    ghost function Value(): Space
      reads this
    {
      Space(tables, pgd, tableFree, pageFree, data, rodata, stack)
    }

    constructor (s: Space)
      requires forall f :: f in s.tables ==> |s.tables[f]| == ENTRIES
      ensures Valid() && Value() == s
    {
      tables, pgd, tableFree, pageFree := s.tables, s.root, s.tableFree, s.pageFree;
      data, rodata, stack := s.data, s.rodata, s.stack;
    }

    /** The word at entry i of the table in frame f. */
    function Word(f: Pfn, i: int): int
      requires 0 <= i < ENTRIES
      reads this
    {
      TableOf(tables, f)[i]
    }

    /** One level down, or nothing: what each stage of a walk does. */
    lemma OneDown(f: Pfn, p: Path)
      requires Valid() && |p| > 0 && 0 <= p[0] < ENTRIES
      ensures Descend(tables, f, p) ==
        if Present(Word(f, p[0])) then Descend(tables, Frame(Word(f, p[0])), p[1..]) else None
    {
      ZeroNotPresent();
    }

    method IsValid(va: nat) returns (r: int)
      requires Valid()
      ensures r == if Mapped(Value(), va) then 1 else -1
    {
      ghost var p := PathOf(va);
      var frame := pgd;
      OneDown(frame, p);
      var word := Word(frame, Index(va, 4));
      if !Present(word) { return -1; }
      frame := Frame(word);
      OneDown(frame, p[1..]);
      word := Word(frame, Index(va, 3));
      if !Present(word) { return -1; }
      frame := Frame(word);
      OneDown(frame, p[2..]);
      word := Word(frame, Index(va, 2));
      if !Present(word) { return -1; }
      frame := Frame(word);
      OneDown(frame, p[3..]);
      word := Word(frame, Index(va, 1));
      if !Present(word) { return -1; }
      return 1;
    }

    method Put(f: Pfn, i: int, word: int)
      requires Valid() && 0 <= i < ENTRIES
      modifies this`tables
      ensures Valid() && tables == old(tables)[f := TableOf(old(tables), f)[i := word]]
    {
      tables := tables[f := TableOf(tables, f)[i := word]];
    }

    method Free1(va: nat)
      requires Valid()
      modifies this`tables, this`pageFree
      ensures Valid()
      ensures var (t, f) := Unmap(old(tables), pgd, PathOf(va));
        tables == t && pageFree == Returned(old(pageFree), f)
    {
      ghost var p := PathOf(va)[..3];
      assert p[1..][1..] == p[2..] && p[2..][1..] == [];
      var frame := pgd;
      OneDown(frame, p);
      var word := Word(frame, Index(va, 4));
      if !Present(word) { return; }
      frame := Frame(word);
      OneDown(frame, p[1..]);
      word := Word(frame, Index(va, 3));
      if !Present(word) { return; }
      frame := Frame(word);
      OneDown(frame, p[2..]);
      word := Word(frame, Index(va, 2));
      if !Present(word) { return; }
      frame := Frame(word);
      assert Descend(tables, pgd, p) == Some(frame);
      word := Word(frame, Index(va, 1));
      if Present(word) {
        pageFree := [Frame(word)] + pageFree;
        Put(frame, Index(va, 1), 0);
      }
    }

    /** A table frame off the allocator's list, cleared. */
    method AllocTable() returns (n: Pfn)
      requires Valid()
      modifies this`tables, this`tableFree
      ensures Valid() && n == FirstFree(old(tableFree)) && tableFree == RestFree(old(tableFree))
      ensures tables == old(tables)[n := ZeroTable()]
    {
      n := FirstFree(tableFree);
      tableFree := RestFree(tableFree);
      tables := tables[n := ZeroTable()];
    }

    /** One stage of the walk-and-extend: the entry's own word is written last. */
    method Stage(f: Pfn, i: int, write: bool) returns (next: Pfn)
      requires Valid() && 0 <= i < ENTRIES
      modifies this`tables, this`tableFree
      ensures Valid()
      ensures (tables, tableFree, next) == StepDown(old(tables), old(tableFree), f, i, write)
    {
      var word := Word(f, i);
      if Present(word) {
        next := Frame(word);
        Put(f, i, WithFlags(word, write));
      } else {
        next := AllocTable();
        Put(f, i, NewEntry(next, write));
      }
    }
  
    /** Three stages, then the page: the body of each branch of the handler. */
    method WalkAndExtend(va: nat, write: bool)
      requires Valid()
      modifies this`tables, this`tableFree, this`pageFree
      ensures Valid() && Value() == MapPage(old(Value()), va, write)
    {
      var frame := Stage(pgd, Index(va, 4), write);
      frame := Stage(frame, Index(va, 3), write);
      frame := Stage(frame, Index(va, 2), write);
      var page := FirstFree(pageFree);
      pageFree := RestFree(pageFree);
      Put(frame, Index(va, 1), NewEntry(page, write));
    }

    method HandlePageFault(va: nat, err: nat) returns (alive: bool)
      requires Valid()
      modifies this`tables, this`tableFree, this`pageFree
      ensures Valid() && (Value(), alive) == Fault(old(Value()), va, err)
    {
      hide MapPage;
      if data.start <= va < data.next && err % 2 == 0 {
        WalkAndExtend(va, data.write);
        alive := true;
      } else if rodata.start <= va < rodata.next && err / 2 % 2 == 0 && err % 2 == 0 {
        WalkAndExtend(va, rodata.write);
        alive := true;
      } else if stack.start <= va < stack.end && err % 2 == 0 {
        WalkAndExtend(va, stack.write);
        alive := true;
      } else {
        alive := false;
      }
    }

    /** The process's Expand system call, in 64-bit arithmetic. */
    method SysExpand(n: nat, readOnly: bool) returns (r: int)
      requires Valid()
      modifies this`data, this`rodata
      ensures Valid() && (Value(), r) == Expand(old(Value()), n, readOnly)
    {
      var size := n * PAGE_SIZE % U64;
      if readOnly {
        if (rodata.next + size) % U64 > rodata.end { return 0; }
        r := rodata.next;
        rodata := rodata.(next := (rodata.next + size) % U64);
      } else {
        if (data.next + size) % U64 > data.end { return 0; }
        r := data.next;
        data := data.(next := (data.next + size) % U64);
      }
    }

    method SysShrink(n: nat, readOnly: bool) returns (r: int)
      requires Valid()
      modifies this`tables, this`pageFree, this`data, this`rodata
      ensures Valid() && (Value(), r) == Shrink(old(Value()), n, readOnly)
    {
      hide FreePages, PathOf, Unmap;
      var g := if readOnly then rodata else data;
      if (g.next - n * PAGE_SIZE) % U64 < g.start { return 0; }
      var i := 0;
      while i < n
        invariant 0 <= i <= n && Valid()
        invariant FreePages(old(tables), pgd, old(pageFree), g.next, n)
          == FreePages(tables, pgd, pageFree, g.next - i * PAGE_SIZE, n - i)
        invariant Value() == old(Value()).(tables := tables, pageFree := pageFree)
      {
        FreesOneMore(tables, pgd, pageFree, g.next - i * PAGE_SIZE, n - i);
        assert g.next - i * PAGE_SIZE - PAGE_SIZE == g.next - (i + 1) * PAGE_SIZE;
        Free1((g.next - PAGE_SIZE * (i + 1)) % U64);
        i := i + 1;
      }
      NoneLeft(tables, pgd, pageFree, g.next - n * PAGE_SIZE);
      r := (g.next - n * PAGE_SIZE) % U64;
      if readOnly {
        rodata := rodata.(next := r);
      } else {
        data := data.(next := r);
      }
    }

    /** The console write: both ends are walked before anything is printed. */
    method SysWrite(buf: nat, n: nat) returns (r: int)
      requires Valid() && buf < U64
      ensures r == AddressSpace.Write(Value(), buf, n)
      ensures n >= 1 ==> (r == n <==> n <= 1024 && forall i: nat :: i < n ==> ByteMapped(Value(), buf, i))
    {
      if n >= 1 {
        WriteChecksAll(Value(), buf, n);
      }
      if n > 1024 { return -1; }
      var first := IsValid(buf);
      var last := IsValid((buf + n - 1) % U64);
      if first == -1 || last == -1 { return -1; }
      return n;
    }
  }
}
