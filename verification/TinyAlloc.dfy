/** The preprocessor's allocator for small objects: a list of bump arenas with
    live counts, reuse of the topmost block, moving reallocation, and reset or
    release of an arena when its last block dies. */
module TinyAlloc {
  const HEADER: nat := 16 // sizeof(tal_header_t)
  const WORD: nat := 8

  function Align(size: nat): (r: nat)
    ensures size <= r < size + WORD && r % WORD == 0
  {
    (size + WORD - 1) / WORD * WORD
  }

  /** adj_size is a 32-bit unsigned. */
  function AdjSize(size: nat): nat { (Align(size) + HEADER) % 0x1_0000_0000 }

  const LARGEST: nat := 0x1_0000_0000 - 24

  /** The reserved room covers the request exactly for sizes up to 2^32 - 24. */
  lemma AdjSizeCovers(size: nat)
    requires size < 0x1_0000_0000
    ensures size + HEADER <= AdjSize(size) <==> size <= LARGEST
    ensures size <= LARGEST <==> Align(size) + HEADER < 0x1_0000_0000
  {
    if size > LARGEST {
      assert Align(size) >= 0x1_0000_0000 - 16;
    } else {
      assert Align(size) <= LARGEST;
    }
  }

  datatype Header = Header(size: nat, owner: Arena)

  /** A block handed out: its bytes are owner.mem[off .. off + size]. */
  datatype Block = Block(owner: Arena, off: nat, size: nat) {
    ghost predicate Apart(b: Block) {
      owner == b.owner ==> off + size <= b.off - HEADER || b.off + b.size <= off - HEADER
    }
  }

  ghost predicate Separate(live: set<Block>) {
    forall b, c :: b in live && c in live && b != c ==> b.Apart(c)
  }

  predicate Distinct(arenas: seq<Arena>) {
    forall i, j :: 0 <= i < j < |arenas| ==> arenas[i] != arenas[j]
  }

  /** The list without its k-th arena. */
  function Without(arenas: seq<Arena>, k: nat): (r: seq<Arena>)
    requires k < |arenas| && Distinct(arenas)
    ensures Distinct(r)
  {
    arenas[..k] + arenas[k + 1..]
  }

  /** One arena left its place in the list, for good or for the front; all others keep theirs. */
  ghost predicate Recycled(was: seq<Arena>, now: seq<Arena>, al: Arena, release: bool)
    requires Distinct(was)
  {
    exists k: nat :: k < |was| && was[k] == al && now == (if release then [] else [al]) + Without(was, k)
  }

  lemma WithoutMembers(arenas: seq<Arena>, k: nat)
    requires k < |arenas| && Distinct(arenas)
    ensures forall a :: a in Without(arenas, k) <==> a in arenas && a != arenas[k]
    ensures Distinct([arenas[k]] + Without(arenas, k))
  {
    assert arenas == arenas[..k] + [arenas[k]] + arenas[k + 1..];
    forall i | 0 <= i < |Without(arenas, k)| ensures Without(arenas, k)[i] != arenas[k] {
      assert Without(arenas, k)[i] == if i < k then arenas[i] else arenas[i + 1];
    }
  }

  ghost function Owned(live: set<Block>, a: Arena): set<Block> {
    set b | b in live && b.owner == a
  }

  /** An arena's fields at one moment. */
  datatype ArenaState = ArenaState(cap: nat, mem: seq<nat>, heads: map<nat, Header>, p: nat, nbAllocs: int, size: nat)

  /** A block in its arena: header intact, room accounted for. A `loose` block's
      room was given back although it is still in use (tal_realloc does so for a moment). */
  ghost predicate BlockIn(b: Block, s: ArenaState, loose: bool) {
    && HEADER <= b.off && b.off + b.size <= s.cap
    && b.off - HEADER in s.heads && s.heads[b.off - HEADER] == Header(b.size, b.owner)
    && (if loose then s.p <= b.off - HEADER else b.off + b.size <= s.p)
  }

  /** The top and the end of an arena's buffer. */
  datatype Room = Room(p: nat, cap: nat)

  predicate HasRoom(r: Room, adjSize: nat) { r.p + adjSize <= r.cap }

  /** The first arena of the list with room. */
  function FirstFit(rooms: seq<Room>, adjSize: nat): (k: nat)
    ensures k <= |rooms| && (k < |rooms| ==> HasRoom(rooms[k], adjSize))
    ensures forall j :: 0 <= j < k ==> !HasRoom(rooms[j], adjSize)
  {
    if rooms == [] || HasRoom(rooms[0], adjSize) then 0 else 1 + FirstFit(rooms[1..], adjSize)
  }

  lemma {:induction false} FirstFitSame(a: seq<Room>, b: seq<Room>, adjSize: nat)
    requires |a| == |b| && forall i :: 0 <= i < |a| ==> (HasRoom(a[i], adjSize) <==> HasRoom(b[i], adjSize))
    ensures FirstFit(a, adjSize) == FirstFit(b, adjSize)
  {
    if a != [] {
      FirstFitSame(a[1..], b[1..], adjSize);
    }
  }

  /** Where the next block of this size would go. */
  function Destination(rooms: seq<Room>, adjSize: nat, std: nat): (r: Room)
    ensures HasRoom(r, adjSize)
  {
    var k := FirstFit(rooms, adjSize);
    if k < |rooms| then rooms[k] else Room(0, if adjSize > std then adjSize else std)
  }

  /** Block b went where the search sends it: to the first arena with room, or to a
      new one in front. */
  ghost predicate Placed(b: Block, was: seq<Arena>, now: seq<Arena>, rooms: seq<Room>, adjSize: nat, std: nat) {
    && |rooms| == |was| && HEADER <= b.off
    && Room(b.off - HEADER, b.owner.cap) == Destination(rooms, adjSize, std)
    && var k := FirstFit(rooms, adjSize);
       if k < |was| then now == was && b.owner == was[k] else now == [b.owner] + was
  }

  /** The same, whatever became of the list since. */
  ghost predicate Sent(b: Block, was: seq<Arena>, rooms: seq<Room>, adjSize: nat, std: nat) {
    && |rooms| == |was| && HEADER <= b.off
    && Room(b.off - HEADER, b.owner.cap) == Destination(rooms, adjSize, std)
    && var k := FirstFit(rooms, adjSize);
       if k < |was| then b.owner == was[k] else b.owner !in was
  }

  /** tal_realloc_impl copies the block's OLD size, to the next block of the new
      size or to the top of its own arena: does that copy end inside the buffer? */
  predicate CopySafe(b: Block, own: Room, rooms: seq<Room>, size: nat, std: nat)
    requires HEADER <= b.off
  {
    var adjSize, top := AdjSize(size), b.off + b.size == own.p;
    var r := if top then Room(b.off - HEADER, own.cap) else own;
    if !HasRoom(r, adjSize) then AwaySafe(b, rooms, adjSize, std)
    else top || r.p + HEADER + b.size <= r.cap
  }

  predicate AwaySafe(b: Block, rooms: seq<Room>, adjSize: nat, std: nat) {
    var to := Destination(rooms, adjSize, std);
    to.p + HEADER + b.size <= to.cap
  }

  /** The condition in full: where the new block begins, and whether the old size fits behind
      its header. */
  lemma CopySafeMeans(b: Block, own: Room, rooms: seq<Room>, size: nat, std: nat)
    requires HEADER <= b.off
    ensures var adj := AdjSize(size);
            CopySafe(b, own, rooms, size, std) <==>
            if b.off + b.size == own.p && b.off - 16 + adj <= own.cap then true
            else if b.off + b.size != own.p && own.p + adj <= own.cap then own.p + 16 + b.size <= own.cap
            else if exists k :: 0 <= k < |rooms| && rooms[k].p + adj <= rooms[k].cap then
              exists k :: 0 <= k < |rooms| && rooms[k].p + adj <= rooms[k].cap && rooms[k].p + 16 + b.size <= rooms[k].cap
                && forall j :: 0 <= j < k ==> rooms[j].p + adj > rooms[j].cap
            else 16 + b.size <= adj || 16 + b.size <= std
  {
    var adj := AdjSize(size);
    var k := FirstFit(rooms, adj);
    assert forall j :: 0 <= j < |rooms| ==> (HasRoom(rooms[j], adj) <==> rooms[j].p + adj <= rooms[j].cap);
    assert k < |rooms| ==> HasRoom(rooms[k], adj);
  }

  /** For a block that grows, room for the new size is room for the copy ... */
  lemma GrowingCopyFits(b: Block, own: Room, rooms: seq<Room>, size: nat, std: nat)
    requires HEADER <= b.off && size <= LARGEST && b.size <= Align(size)
    ensures CopySafe(b, own, rooms, size, std)
  {
    hide Align, FirstFit;
  }

  /** ... for a block that shrinks it need not be: 64 bytes cut to 8 behind another block. */
  lemma ShrinkingCopyOverruns(a: Arena)
    ensures var b := Block(a, 16, 64);
            var s := ArenaState(128, seq(128, _ => 0), map[0 := Header(64, a), 80 := Header(8, a)], 104, 2, 128);
            BlockIn(b, s, false) && !CopySafe(b, Room(104, 128), [Room(104, 128)], 8, 128)
  {}

  /** `extra` blocks are counted ahead of being made. */
  ghost predicate Accounts(a: Arena, s: ArenaState, live: set<Block>, extra: nat, std: nat) {
    && |s.mem| == s.cap && s.p <= s.cap && s.size == std <= s.cap && s.nbAllocs == |Owned(live, a)| + extra
  }

  lemma AccountsGrow(a: Arena, s: ArenaState, t: ArenaState, live: set<Block>, b: Block, std: nat)
    requires Accounts(a, s, live, if a == b.owner then 1 else 0, std) && b !in live
    requires |t.mem| == |s.mem| && t.cap == s.cap && (t == s || t.p <= t.cap) && t.size == s.size && t.nbAllocs == s.nbAllocs
    ensures Accounts(a, t, live + {b}, 0, std)
  {
    OwnedGrows(live, b, a);
  }

  /** Writing at or above an arena's top disturbs no block below it. */
  lemma BlockKept(b: Block, s: ArenaState, t: ArenaState)
    requires BlockIn(b, s, false) && t.cap == s.cap && s.p <= t.p
    requires forall k :: k in s.heads && k + HEADER <= s.p ==> k in t.heads && t.heads[k] == s.heads[k]
    ensures BlockIn(b, t, false)
  {}

  lemma OwnedGrows(live: set<Block>, b: Block, a: Arena)
    requires b !in live
    ensures Owned(live + {b}, a) == if b.owner == a then Owned(live, a) + {b} else Owned(live, a)
    ensures |Owned(live + {b}, a)| == |Owned(live, a)| + if b.owner == a then 1 else 0
  {
    assert Owned(live + {b}, a) == if b.owner == a then Owned(live, a) + {b} else Owned(live, a);
  }

  lemma OwnedShrinks(live: set<Block>, b: Block, a: Arena)
    requires b in live
    ensures |Owned(live - {b}, a)| == |Owned(live, a)| - if b.owner == a then 1 else 0
  {
    OwnedGrows(live - {b}, b, a);
    assert live - {b} + {b} == live;
  }

  class Arena {
    const cap: nat // bufend - buffer
    var mem: seq<nat>
    var heads: map<nat, Header> // headers still intact in the buffer, by offset
    var p: nat
    var nbAllocs: int
    var size: nat // the standard size of the list

    constructor (cap: nat, size: nat)
      ensures this.cap == cap == |mem| && p == 0 && nbAllocs == 0 && this.size == size && heads == map[]
    {
      this.cap, this.size := cap, size;
      mem, heads, p, nbAllocs := seq(cap, _ => 0), map[], 0, 0;
    }

    ghost function State(): ArenaState
      reads this
    {
      ArenaState(cap, mem, heads, p, nbAllocs, size)
    }

    /** A header write overwrites the bytes under it and any header it overlaps. */
    method PutHeader(at: nat, h: Header)
      requires at + HEADER <= |mem|
      modifies this`mem, this`heads
      ensures |mem| == |old(mem)| && at in heads && heads[at] == h
      ensures forall i :: 0 <= i < |mem| && !(at <= i < at + HEADER) ==> mem[i] == old(mem)[i]
      ensures forall k :: k in old(heads) && (k + HEADER <= at || at + HEADER <= k) ==> k in heads && heads[k] == old(heads)[k]
    {
      mem := mem[..at] + seq(HEADER, _ => 0) + mem[at + HEADER..];
      heads := (map k | k in heads && (k + HEADER <= at || at + HEADER <= k) :: heads[k])[at := h];
    }

    /** memcpy into the buffer. */
    method CopyIn(at: nat, data: seq<nat>)
      requires at + |data| <= |mem|
      modifies this`mem, this`heads
      ensures |mem| == |old(mem)| && mem[at..at + |data|] == data
      ensures forall i :: 0 <= i < |mem| && !(at <= i < at + |data|) ==> mem[i] == old(mem)[i]
      ensures forall k :: k in old(heads) && (k + HEADER <= at || at + |data| <= k) ==> k in heads && heads[k] == old(heads)[k]
      ensures forall k :: k in heads ==> k in old(heads) && (k + HEADER <= at || at + |data| <= k)
    {
      mem := mem[..at] + data + mem[at + |data|..];
      heads := map k | k in heads && (k + HEADER <= at || at + |data| <= k) :: heads[k];
    }
  }

  class Allocator {
    var arenas: seq<Arena> // the list, head first
    ghost var live: set<Block>
    ghost const std: nat

    ghost function Bytes(b: Block): seq<nat>
      reads b.owner
      requires b.off + b.size <= |b.owner.mem|
    {
      b.owner.mem[b.off..b.off + b.size]
    }

    ghost function Rooms(): (r: seq<Room>)
      reads this, arenas
      ensures |r| == |arenas| && forall i :: 0 <= i < |r| ==> r[i] == Room(arenas[i].p, arenas[i].cap)
    {
      seq(|arenas|, i requires 0 <= i < |arenas| reads this, arenas => Room(arenas[i].p, arenas[i].cap))
    }

    /** `pending` holds an arena that already counts a block still to be made. */
    ghost predicate Inv(loose: set<Block>, pending: set<Arena>)
      reads this, arenas
    {
      && Distinct(arenas)
      && (exists a :: a in arenas && a.cap == std)
      && (forall a :: a in arenas ==> Accounts(a, a.State(), live, if a in pending then 1 else 0, std))
      && (forall b :: b in live ==> b.owner in arenas && BlockIn(b, b.owner.State(), b in loose))
      && Separate(live)
    }

    /** Blocks lie inside their arenas, apart from each other; every arena counts
        its own; and one arena has the standard size, so it is never released. */
    ghost predicate Valid()
      reads this, arenas
    {
      Inv({}, {})
    }

    constructor (size: nat)
      ensures Valid() && live == {} && fresh(arenas) && std == size && Rooms() == [Room(0, size)]
    {
      std := size;
      live := {};
      var a := new Arena(size, size);
      arenas := [a];
      new;
      assert Owned(live, a) == {};
    }

    /** tal_new for a non-empty list: pushed in front, standard size inherited. */
    method NewArena(size: nat, ghost loose: set<Block>) returns (al: Arena)
      requires Inv(loose, {}) && size >= std
      modifies this`arenas
      ensures Inv(loose, {}) && fresh(al) && arenas == [al] + old(arenas)
      ensures al.p == 0 && al.cap == size
    {
      hide Separate, BlockIn;
      assert Accounts(arenas[0], arenas[0].State(), live, 0, std);
      al := new Arena(size, arenas[0].size);
      ghost var kept: Arena :| kept in arenas && kept.cap == std;
      arenas := [al] + arenas;
      assert kept in arenas;
      assert Owned(live, al) == {};
    }

    /** The search of the "new alloc" case: the first arena with room, else a new one. */
    method FindRoom(adjSize: nat, ghost loose: set<Block>) returns (al: Arena)
      requires Inv(loose, {})
      modifies this`arenas
      ensures Inv(loose, {}) && al in arenas && al.p + adjSize <= al.cap
      ensures Room(al.p, al.cap) == Destination(old(Rooms()), adjSize, std)
      ensures var k := FirstFit(old(Rooms()), adjSize);
              if k < |old(arenas)| then al == old(arenas)[k] && arenas == old(arenas)
              else fresh(al) && arenas == [al] + old(arenas)
    {
      var i := 0;
      ghost var k := FirstFit(Rooms(), adjSize);
      while i < |arenas| && arenas[i].p + adjSize > arenas[i].cap
        invariant i <= |arenas| && i <= k
      {
        assert !HasRoom(Rooms()[i], adjSize);
        i := i + 1;
      }
      assert i < |arenas| ==> HasRoom(Rooms()[i], adjSize);
      if i < |arenas| {
        return arenas[i];
      }
      assert Accounts(arenas[0], arenas[0].State(), live, 0, std);
      var newSize := arenas[0].size;
      if adjSize > newSize {
        newSize := adjSize;
      }
      al := NewArena(newSize, loose);
    }

    /** The common tail: a header at the arena's top and the room behind it. */
    method Bump(al: Arena, adjSize: nat, ghost loose: set<Block>) returns (b: Block)
      requires Inv(loose, {al}) && al in arenas && HEADER <= adjSize && al.p + adjSize <= al.cap
      requires forall x :: x in loose ==> x.owner != al
      modifies this`live, al`p, al`mem, al`heads
      ensures Inv(loose, {}) && b !in old(live) && live == old(live) + {b}
      ensures b == Block(al, old(al.p) + HEADER, adjSize - HEADER) && al.p == old(al.p) + adjSize
      ensures |al.mem| == |old(al.mem)|
      ensures forall i :: 0 <= i < |al.mem| && !(b.off - HEADER <= i < b.off) ==> al.mem[i] == old(al.mem)[i]
    {
      hide BlockIn, Separate, Accounts;
      var at := al.p;
      AccountsBound(al, {al});
      b := Block(al, at + HEADER, adjSize - HEADER);
      ghost var before, live0 := al.State(), live;
      SeparateAbove(loose, {al}, b);
      al.PutHeader(at, Header(adjSize - HEADER, al));
      al.p := at + adjSize;
      live := live + {b};
      NewBlockIn(b, al.State());
      forall x | x in live
        ensures x.owner in arenas && BlockIn(x, x.owner.State(), x in loose)
      {
        if x.owner == al && x != b {
          BlockKept(x, before, al.State());
        }
      }
      forall a | a in arenas
        ensures Accounts(a, a.State(), live, 0, std)
      {
        AccountsGrow(a, if a == al then before else a.State(), a.State(), live0, b, std);
      }
    }

    lemma AccountsBound(a: Arena, pending: set<Arena>)
      requires a in arenas && Accounts(a, a.State(), live, if a in pending then 1 else 0, std)
      ensures a.p <= |a.mem| == a.cap && a.size == std
    {}

    lemma NewBlockIn(b: Block, s: ArenaState)
      requires HEADER <= b.off && b.off + b.size == s.p <= s.cap
      requires b.off - HEADER in s.heads && s.heads[b.off - HEADER] == Header(b.size, b.owner)
      ensures BlockIn(b, s, false)
    {}

    lemma SeparateAbove(loose: set<Block>, pending: set<Arena>, b: Block)
      requires Inv(loose, pending) && HEADER <= b.off && b.owner.p <= b.off - HEADER
      requires forall x :: x in loose ==> x.owner != b.owner
      ensures b !in live && Separate(live + {b})
    {
      forall x | x in live ensures x != b && x.Apart(b) && b.Apart(x) {
        assert BlockIn(x, x.owner.State(), x in loose);
      }
    }

    /** tal_realloc(pal, 0, size): a new block. It fails exactly for the sizes whose
        adjusted size wraps, where the original would hand out too little. */
    method Alloc(size: nat) returns (ok: bool, b: Block)
      requires Valid() && size < 0x1_0000_0000
      modifies this`arenas, this`live, arenas
      ensures ok <==> size <= LARGEST
      ensures ok ==> Valid() && b !in old(live) && live == old(live) + {b} && b.size == Align(size)
      ensures ok ==> Placed(b, old(arenas), arenas, old(Rooms()), AdjSize(size), std) && b.owner.p == b.off + b.size
      ensures ok ==> forall a :: a in old(arenas) && a != b.owner ==> a.State() == old(a.State())
      ensures forall x :: x in old(live) ==> x.off + x.size <= |x.owner.mem| && Bytes(x) == old(Bytes(x))
    {
      hide Align, Inv, FirstFit, Destination;
      AdjSizeCovers(size);
      LiveFits({}, {});
      NeverEmpty();
      ok := size <= LARGEST;
      if ok {
        b := Place(size, {});
      } else {
        b := Block(arenas[0], 0, 0);
      }
    }

    lemma NeverEmpty()
      requires Valid()
      ensures arenas != []
    {}

    /** A block of the aligned size, in an arena with room. */
    method Place(size: nat, ghost loose: set<Block>) returns (b: Block)
      requires Inv(loose, {}) && Align(size) + HEADER < 0x1_0000_0000
      requires forall x :: x in loose ==> x.owner in arenas && x.owner.p + Align(size) + HEADER > x.owner.cap
      modifies this`arenas, this`live, arenas
      ensures Inv(loose, {}) && b !in old(live) && live == old(live) + {b} && b.size == Align(size)
      ensures b.owner in arenas
      ensures (forall a :: a in old(arenas) ==> a in arenas) && forall a :: a in arenas ==> a in old(arenas) || fresh(a)
      ensures forall a :: a in old(arenas) && a != b.owner ==> a.State() == old(a.State())
      ensures forall x :: x in old(live) ==> x.off + x.size <= |x.owner.mem| && Bytes(x) == old(Bytes(x))
      ensures forall x :: x in loose ==> b.owner != x.owner
      ensures b.owner.p == b.off + b.size && HEADER <= b.off
      ensures Placed(b, old(arenas), arenas, old(Rooms()), AdjSize(size), std)
    {
      hide Inv, Align, FirstFit, Destination;
      var adjSize := AdjSize(size);
      var al := FindRoom(adjSize, loose);
      LiveFits(loose, {});
      CountOne(al, loose);
      b := Bump(al, adjSize, loose);
    }

    method CountOne(al: Arena, ghost loose: set<Block>)
      requires Inv(loose, {}) && al in arenas
      modifies al`nbAllocs
      ensures Inv(loose, {al}) && al.nbAllocs == old(al.nbAllocs) + 1
    {
      al.nbAllocs := al.nbAllocs + 1;
    }

    lemma LiveFits(loose: set<Block>, pending: set<Arena>)
      requires Inv(loose, pending)
      ensures forall x :: x in live ==> x.owner in arenas && x.off + x.size <= |x.owner.mem|
      ensures forall x :: x in live && x !in loose ==> x.off + x.size <= x.owner.p
    {
      forall x | x in live
        ensures x.owner in arenas && x.off + x.size <= |x.owner.mem| && (x !in loose ==> x.off + x.size <= x.owner.p)
      {
        assert BlockIn(x, x.owner.State(), x in loose);
      }
    }

    lemma SliceSame(s: seq<nat>, t: seq<nat>, i: nat, j: nat)
      requires i <= j <= |s| == |t| && forall k :: i <= k < j ==> s[k] == t[k]
      ensures s[i..j] == t[i..j]
    {}

    /** A write by the owner of a block, into the block. */
    method Store(b: Block, data: seq<nat>, ghost loose: set<Block>)
      requires Inv(loose, {}) && b in live && |data| <= b.size
      modifies b.owner`mem, b.owner`heads
      ensures Inv(loose, {}) && b.off + b.size <= |b.owner.mem|
      ensures Bytes(b)[..|data|] == data
      ensures forall x :: x in live && x != b ==> x.off + x.size <= |x.owner.mem| && Bytes(x) == old(Bytes(x))
    {
      hide BlockIn, Separate, Accounts;
      LiveFits(loose, {});
      ghost var before, mem0 := b.owner.State(), b.owner.mem;
      b.owner.CopyIn(b.off, data);
      assert Bytes(b)[..|data|] == b.owner.mem[b.off..b.off + |data|];
      forall x | x in live
        ensures BlockIn(x, x.owner.State(), x in loose)
        ensures x != b ==> x.off + x.size <= |x.owner.mem| && Bytes(x) == old(Bytes(x))
      {
        if x.owner == b.owner {
          BlockSurvives(x, b, before, b.owner.State(), x in loose, b in loose, live);
          if x != b {
            SliceSame(b.owner.mem, mem0, x.off, x.off + x.size);
          }
        }
      }
      forall a | a in arenas
        ensures Accounts(a, a.State(), live, 0, std)
      {
        if a == b.owner {
          AccountsSame(a, before, a.State(), live, std);
        }
      }
    }

    lemma AccountsSame(a: Arena, s: ArenaState, t: ArenaState, live: set<Block>, std: nat)
      requires Accounts(a, s, live, 0, std) && |t.mem| == |s.mem|
      requires t.cap == s.cap && t.p == s.p && t.size == s.size && t.nbAllocs == s.nbAllocs
      ensures Accounts(a, t, live, 0, std)
    {}

    /** Writing inside block b spares the bytes and the header of every other block. */
    lemma BlockSurvives(x: Block, b: Block, s: ArenaState, t: ArenaState, xLoose: bool, bLoose: bool, live: set<Block>)
      requires x.owner == b.owner && x in live && b in live && Separate(live)
      requires BlockIn(x, s, xLoose) && BlockIn(b, s, bLoose) && t.cap == s.cap && t.p == s.p
      requires forall k :: k in s.heads && (k + HEADER <= b.off || b.off + b.size <= k) ==> k in t.heads && t.heads[k] == s.heads[k]
      ensures BlockIn(x, t, xLoose)
      ensures x != b ==> x.off + x.size <= b.off || b.off + b.size <= x.off
    {
      assert x != b ==> x.Apart(b);
    }

    /** The block leaves the books of its arena. */
    method Retire(b: Block, ghost loose: set<Block>)
      requires Inv(loose, {}) && b in live && loose <= {b}
      modifies this`live, b.owner`nbAllocs
      ensures Valid() && live == old(live) - {b} && b.owner.nbAllocs == old(b.owner.nbAllocs) - 1
    {
      hide BlockIn;
      b.owner.nbAllocs := b.owner.nbAllocs - 1;
      ghost var live0 := live;
      live := live - {b};
      forall a | a in arenas
        ensures Accounts(a, a.State(), live, 0, std)
      {
        OwnedShrinks(live0, b, a);
      }
      forall x | x in live
        ensures BlockIn(x, x.owner.State(), false)
      {
        if x.owner == b.owner {
          BlockSame(x, old(x.owner.State()), x.owner.State());
        }
      }
    }

    lemma BlockSame(x: Block, s: ArenaState, t: ArenaState)
      requires BlockIn(x, s, false) && t.cap == s.cap && t.heads == s.heads && (t.p == s.p || x.off + x.size <= t.p)
      ensures BlockIn(x, t, false)
    {}

    /** The walk down the list to the arena. */
    method Find(al: Arena) returns (k: nat)
      requires al in arenas
      ensures k < |arenas| && arenas[k] == al
    {
      k := 0;
      while arenas[k] != al
        invariant k < |arenas| && forall j :: 0 <= j < k ==> arenas[j] != al
        decreases |arenas| - k
      {
        k := k + 1;
      }
    }

    /** The arena of the last block: out of the list, and back in front if it has
        the standard size. */
    method ResetOrRelease(al: Arena)
      requires Valid() && al in arenas && al.nbAllocs == 0
      modifies this`arenas, al`p
      ensures Valid() && (forall a :: a in arenas ==> a in old(arenas))
      ensures Recycled(old(arenas), arenas, al, al.cap > al.size)
      ensures al.cap <= al.size ==> al.p == 0
    {
      hide BlockIn, Separate, Accounts, Distinct, Without;
      NothingOwned(al);
      var k := Find(al);
      ghost var before, state := arenas, al.State();
      WithoutMembers(arenas, k);
      arenas := Without(arenas, k);
      if al.cap > al.size {
      } else {
        al.p := 0;
        arenas := [al] + arenas;
        AccountsReset(al, state, al.State(), live, std);
      }
      ghost var kept: Arena :| kept in before && kept.cap == std;
      assert kept in arenas;
    }

    lemma NothingOwned(al: Arena)
      requires Valid() && al in arenas && al.nbAllocs == 0
      ensures al.size == std <= al.cap && forall x :: x in live ==> x.owner != al
    {
      assert Accounts(al, al.State(), live, 0, std);
      assert Owned(live, al) == {};
      forall x | x in live ensures x.owner != al {
        assert x.owner == al ==> x in Owned(live, al);
      }
    }

    lemma AccountsReset(a: Arena, s: ArenaState, t: ArenaState, live: set<Block>, std: nat)
      requires Accounts(a, s, live, 0, std) && t == s.(p := 0)
      ensures Accounts(a, t, live, 0, std)
    {}

    /** The room of a dead topmost block is available again. */
    method LowerTop(al: Arena, p: nat)
      requires Valid() && al in arenas && p <= al.p
      requires forall x :: x in live && x.owner == al ==> x.off + x.size <= p
      modifies al`p
      ensures Valid() && al.p == p
    {
      hide BlockIn;
      ghost var before := al.State();
      al.p := p;
      forall x | x in live
        ensures BlockIn(x, x.owner.State(), false)
      {
        if x.owner == al {
          BlockSame(x, before, al.State());
        }
      }
    }

    /** tal_free_impl: when the last block of an arena dies, an oversized arena is
        released and a standard one is reset and moved to the front; otherwise the
        room of the topmost block is reused. */
    method Free(b: Block, ghost loose: set<Block>)
      requires Inv(loose, {}) && b in live && loose <= {b}
      modifies this`arenas, this`live, b.owner`p, b.owner`nbAllocs
      ensures Valid() && live == old(live) - {b}
      ensures forall a :: a in arenas ==> a in old(arenas)
      ensures old(b.owner.nbAllocs) == 1 ==>
                Recycled(old(arenas), arenas, b.owner, b.owner.cap > b.owner.size)
      ensures old(b.owner.nbAllocs) != 1 ==>
                arenas == old(arenas) && b.owner.p == if b.off + b.size == old(b.owner.p) then b.off - HEADER else old(b.owner.p)
    {
      hide Recycled, Separate, Accounts, Distinct;
      assert BlockIn(b, b.owner.State(), b in loose);
      var header := b.owner.heads[b.off - HEADER];
      var al := header.owner;
      BelowTop(b, loose);
      Retire(b, loose);
      if al.nbAllocs == 0 {
        ResetOrRelease(al);
      } else if b.off + header.size == al.p {
        LowerTop(al, b.off - HEADER);
      }
    }

    lemma BelowTop(b: Block, loose: set<Block>)
      requires Inv(loose, {}) && b in live && loose <= {b}
      ensures b.off + b.size == b.owner.p ==>
                b !in loose && forall x :: x in live && x != b && x.owner == b.owner ==> x.off + x.size <= b.off - HEADER
    {
      assert BlockIn(b, b.owner.State(), b in loose);
      forall x | x in live && x != b && x.owner == b.owner && b.off + b.size == b.owner.p
        ensures x.off + x.size <= b.off - HEADER
      {
        assert BlockIn(x, x.owner.State(), x in loose) && x.Apart(b);
      }
    }

    /** "Maybe Reuse": a topmost block's room goes back to its arena while its bytes stay. */
    method GiveBack(b: Block) returns (ghost loose: set<Block>)
      requires Valid() && b in live
      modifies b.owner`p
      ensures Inv(loose, {})
      ensures if b.off + b.size == old(b.owner.p) then loose == {b} && b.owner.p == b.off - HEADER
              else loose == {} && b.owner.p == old(b.owner.p)
    {
      hide Separate, Accounts;
      loose := {};
      BelowTop(b, {});
      if b.off + b.size == b.owner.p {
        ghost var before := b.owner.State();
        b.owner.p := b.off - HEADER;
        loose := {b};
        forall a | a in arenas ensures Accounts(a, a.State(), live, 0, std) {
          if a == b.owner { AccountsLower(a, before, a.State(), live, std); }
        }
      }
    }

    lemma AccountsLower(a: Arena, s: ArenaState, t: ArenaState, live: set<Block>, std: nat)
      requires Accounts(a, s, live, 0, std) && t == s.(p := t.p) && t.p <= s.p
      ensures Accounts(a, t, live, 0, std)
    {}

    /** memcpy into the room above an arena's top. */
    method CopyUp(al: Arena, at: nat, data: seq<nat>)
      requires Valid() && al in arenas && al.p <= at && at + |data| <= al.cap
      modifies al`mem, al`heads
      ensures Valid() && |al.mem| == |old(al.mem)| >= at + |data|
      ensures forall i :: 0 <= i < |data| ==> al.mem[at + i] == data[i]
      ensures forall i :: 0 <= i < al.p ==> al.mem[i] == old(al.mem)[i]
    {
      hide Separate, Accounts, BlockIn;
      ghost var before := al.State();
      AccountsBound(al, {});
      al.CopyIn(at, data);
      forall i | 0 <= i < |data| ensures al.mem[at + i] == data[i] {
        assert al.mem[at..at + |data|][i] == data[i];
      }
      forall x | x in live ensures BlockIn(x, x.owner.State(), false) {
        if x.owner == al { BlockKept(x, before, al.State()); }
      }
      forall a | a in arenas ensures Accounts(a, a.State(), live, 0, std) {
        if a == al { AccountsSame(a, before, a.State(), live, std); }
      }
    }

    /** From here on the old block is dead and its successor still to be made. */
    ghost method Forget(b: Block, loose: set<Block>)
      requires Inv(loose, {}) && b in live && loose <= {b}
      modifies this`live
      ensures Inv({}, {b.owner}) && live == old(live) - {b}
    {
      hide BlockIn;
      var live0 := live;
      live := live - {b};
      forall a | a in arenas
        ensures Accounts(a, a.State(), live, if a == b.owner then 1 else 0, std)
      {
        OwnedShrinks(live0, b, a);
      }
    }

    /** memcpy to the block at its arena's top; what exceeds the block stays above the top. */
    method Spill(r: Block, data: seq<nat>, ghost loose: set<Block>)
      requires Inv(loose, {}) && r in live && r.off + r.size == r.owner.p && r.off + |data| <= r.owner.cap
      requires forall x :: x in loose ==> x.owner != r.owner
      modifies r.owner`mem, r.owner`heads
      ensures Inv(loose, {}) && r.off + r.size <= |r.owner.mem|
      ensures forall i :: 0 <= i < |data| && i < r.size ==> Bytes(r)[i] == data[i]
      ensures forall x :: x in live && x != r ==> x.off + x.size <= |x.owner.mem| && Bytes(x) == old(Bytes(x))
    {
      hide BlockIn, Separate, Accounts;
      LiveFits(loose, {});
      AccountsBound(r.owner, {});
      ghost var before := r.owner.State();
      r.owner.CopyIn(r.off, data);
      forall i | 0 <= i < |data| && i < r.size ensures Bytes(r)[i] == data[i] {
        assert r.owner.mem[r.off..r.off + |data|][i] == data[i];
      }
      forall x | x in live
        ensures BlockIn(x, x.owner.State(), x in loose)
        ensures x != r ==> x.off + x.size <= |x.owner.mem| && Bytes(x) == old(Bytes(x))
      {
        if x.owner == r.owner {
          BlockBelow(x, r, before, r.owner.State(), live);
        }
      }
      forall a | a in arenas
        ensures Accounts(a, a.State(), live, 0, std)
      {
        if a == r.owner {
          AccountsSame(a, before, a.State(), live, std);
        }
      }
    }

    /** Writing from the topmost block's start on spares everything below it. */
    lemma BlockBelow(x: Block, r: Block, s: ArenaState, t: ArenaState, live: set<Block>)
      requires x.owner == r.owner && x in live && r in live && Separate(live)
      requires BlockIn(x, s, false) && BlockIn(r, s, false) && r.off + r.size == s.p && t.cap == s.cap && t.p == s.p
      requires forall k :: k in s.heads && k + HEADER <= r.off ==> k in t.heads && t.heads[k] == s.heads[k]
      ensures BlockIn(x, t, false)
      ensures x != r ==> x.off + x.size <= r.off
    {
      assert x != r ==> x.Apart(r);
    }

    /** The move to another arena: allocate, copy the old size, free. It fails
        when that copy would leave the buffer. */
    method MoveAway(b: Block, size: nat, ghost loose: set<Block>) returns (ok: bool, r: Block)
      requires Inv(loose, {}) && b in live && loose <= {b} && Align(size) + HEADER < 0x1_0000_0000
      requires b.owner.p + Align(size) + HEADER > b.owner.cap
      modifies this`arenas, this`live, arenas
      ensures ok <==> AwaySafe(b, old(Rooms()), AdjSize(size), std)
      ensures ok ==> Sent(r, old(arenas), old(Rooms()), AdjSize(size), std) && r.owner.p == r.off + r.size
      ensures ok ==> (r.owner in old(arenas) || fresh(r.owner))
      ensures ok ==> Valid() && r !in old(live) && live == old(live) - {b} + {r} && r.size == Align(size)
      ensures ok ==> forall x :: x in live ==> x.off + x.size <= |x.owner.mem|
      ensures old(b.off + b.size <= |b.owner.mem|)
      ensures ok ==> forall i :: 0 <= i < b.size && i < r.size ==> Bytes(r)[i] == old(Bytes(b))[i]
      ensures ok ==> forall x :: x in old(live) && x != b ==> Bytes(x) == old(Bytes(x))
    {
      hide Inv, Align, Destination;
      LiveFits(loose, {});
      ghost var was := arenas;
      r := Place(size, loose);
      AllDistinct(loose);
      PlacedIsSent(r, was, arenas, old(Rooms()), AdjSize(size), std);
      hide Sent, Placed;
      LiveFits(loose, {});
      ok := r.off + b.size <= r.owner.cap;
      if !ok {
        return;
      }
      var bytes := b.owner.mem[b.off..b.off + b.size];
      Spill(r, bytes, loose);
      Free(b, loose);
      LiveFits({}, {});
    }

    /** The old block gives way to a new one at its arena's top. */
    method Renew(b: Block, adjSize: nat, ghost loose: set<Block>) returns (r: Block)
      requires Inv(loose, {}) && b in live && loose <= {b} && HEADER <= adjSize && b.owner.p + adjSize <= b.owner.cap
      modifies this`live, b.owner`p, b.owner`mem, b.owner`heads
      ensures Valid() && r !in old(live) - {b} && live == old(live) - {b} + {r}
      ensures r == Block(b.owner, old(b.owner.p) + HEADER, adjSize - HEADER) && b.owner.p == old(b.owner.p) + adjSize
      ensures |b.owner.mem| == old(|b.owner.mem|)
      ensures forall i :: 0 <= i < |b.owner.mem| && !(r.off - HEADER <= i < r.off) ==> b.owner.mem[i] == old(b.owner.mem)[i]
      ensures forall x :: x in live ==> x.off + x.size <= |x.owner.mem|
    {
      hide Inv;
      LiveFits(loose, {});
      Forget(b, loose);
      r := Bump(b.owner, adjSize, {});
      LiveFits({}, {});
    }

    lemma PlacedIsSent(b: Block, was: seq<Arena>, now: seq<Arena>, rooms: seq<Room>, adjSize: nat, std: nat)
      requires Placed(b, was, now, rooms, adjSize, std) && Distinct(now)
      ensures Sent(b, was, rooms, adjSize, std)
    {
      if FirstFit(rooms, adjSize) >= |was| {
        forall i | 0 <= i < |was| ensures was[i] != now[0] {
          assert was[i] == now[i + 1];
        }
      }
    }

    lemma AllDistinct(loose: set<Block>)
      requires Inv(loose, {})
      ensures Distinct(arenas)
    {}

    /** The bytes of b behind the header to come, where they may already be. */
    method Lift(b: Block, bytes: seq<nat>, ghost loose: set<Block>)
      requires Inv(loose, {}) && b in live && loose <= {b} && b.off + b.size <= |b.owner.mem|
      requires bytes == b.owner.mem[b.off..b.off + b.size]
      requires b in loose ==> b.owner.p == b.off - HEADER
      requires b !in loose ==> b.owner.p + HEADER + b.size <= b.owner.cap && b.owner.p != b.off - HEADER
      modifies b.owner`mem, b.owner`heads
      ensures Inv(loose, {}) && |b.owner.mem| == |old(b.owner.mem)| >= b.owner.p + HEADER + b.size
      ensures b.owner.mem[b.owner.p + HEADER..b.owner.p + HEADER + b.size] == bytes
      ensures forall i :: 0 <= i < b.owner.p ==> b.owner.mem[i] == old(b.owner.mem)[i]
    {
      hide Inv;
      LiveFits(loose, {});
      if b.owner.p != b.off - HEADER {
        assert loose == {};
        CopyUp(b.owner, b.owner.p + HEADER, bytes);
        assert b.owner.mem[b.owner.p + HEADER..b.owner.p + HEADER + b.size] == bytes;
      }
    }

    /** The new room in the same arena: at the old place, or above its top. */
    method MoveWithin(b: Block, adjSize: nat, ghost loose: set<Block>) returns (r: Block)
      requires Inv(loose, {}) && b in live && loose <= {b} && HEADER <= adjSize && b.owner.p + adjSize <= b.owner.cap
      requires b in loose ==> b.owner.p == b.off - HEADER
      requires b !in loose ==> b.owner.p + HEADER + b.size <= b.owner.cap && b.owner.p != b.off - HEADER
      modifies this`live, b.owner`p, b.owner`mem, b.owner`heads
      ensures Valid() && r !in old(live) - {b} && live == old(live) - {b} + {r}
      ensures r == Block(b.owner, old(b.owner.p) + HEADER, adjSize - HEADER) && b.owner.p == r.off + r.size
      ensures forall x :: x in live ==> x.off + x.size <= |x.owner.mem|
      ensures old(b.off + b.size <= |b.owner.mem|)
      ensures forall i :: 0 <= i < b.size && i < r.size ==> Bytes(r)[i] == old(Bytes(b))[i]
      ensures forall x :: x in old(live) && x != b ==> Bytes(x) == old(Bytes(x))
    {
      hide Inv;
      LiveFits(loose, {});
      var al := b.owner;
      var bytes := al.mem[b.off..b.off + b.size];
      ghost var live0, mem0 := live, al.mem;
      Lift(b, bytes, loose);
      ghost var at, mem := al.p + HEADER, al.mem;
      r := Renew(b, adjSize, loose);
      forall i | 0 <= i < b.size && i < r.size ensures Bytes(r)[i] == bytes[i] {
        assert mem[at..at + b.size][i] == mem[at + i] == al.mem[at + i];
      }
      forall x | x in live0 && x != b ensures Bytes(x) == old(Bytes(x)) {
        if x.owner == al {
          SliceSame(al.mem, mem0, x.off, x.off + x.size);
        }
      }
    }

    /** tal_realloc_impl on an existing block: the block becomes one of the new
        size with the old bytes, in place, at the top of its arena, or in another
        arena, and nothing else in use changes. It fails exactly when its memcpy
        of the OLD size would run over the end of a buffer, or the adjusted size
        would wrap. */
    method Realloc(b: Block, size: nat) returns (ok: bool, r: Block)
      requires Valid() && b in live && size < 0x1_0000_0000
      modifies this`arenas, this`live, arenas
      ensures HEADER <= b.off
      ensures ok <==> size <= LARGEST && CopySafe(b, old(Room(b.owner.p, b.owner.cap)), old(Rooms()), size, std)
      ensures ok ==> Valid() && r !in old(live) - {b} && live == old(live) - {b} + {r} && r.size == Align(size)
      ensures ok ==> forall x :: x in live ==> x.off + x.size <= |x.owner.mem|
      ensures old(b.off + b.size <= |b.owner.mem|)
      ensures ok ==> forall i :: 0 <= i < b.size && i < r.size ==> Bytes(r)[i] == old(Bytes(b))[i]
      ensures ok ==> forall x :: x in old(live) && x != b ==> Bytes(x) == old(Bytes(x))
      ensures ok ==> r.owner.p == r.off + r.size
      ensures ok && b.off + b.size == old(b.owner.p) && b.off + Align(size) <= b.owner.cap ==>
                r.owner == b.owner && r.off == b.off
      ensures ok && b.off + b.size != old(b.owner.p) && old(b.owner.p) + HEADER + Align(size) <= b.owner.cap ==>
                r.owner == b.owner && r.off == old(b.owner.p) + HEADER
      ensures ok && (if b.off + b.size == old(b.owner.p) then b.off else old(b.owner.p) + HEADER) + Align(size) > b.owner.cap ==>
                Sent(r, old(arenas), old(Rooms()), AdjSize(size), std) && (r.owner in old(arenas) || fresh(r.owner))
    {
      hide Inv, Align, AwaySafe, Sent;
      LiveFits({}, {});
      HeaderOf(b);
      AdjSizeCovers(size);
      if size > LARGEST {
        return false, b;
      }
      var header := b.owner.heads[b.off - HEADER];
      var al := header.owner;
      var adjSize := AdjSize(size);
      ghost var rooms := Rooms();
      ghost var loose := GiveBack(b);
      if al.p + adjSize > al.cap {
        ghost var back := Rooms();
        AwayIsSame(b, rooms, back, adjSize, std);
        ok, r := MoveAway(b, size, loose);
        if ok {
          SentSame(r, old(arenas), rooms, back, adjSize, std);
        }
      } else if al.p != b.off - HEADER && al.p + HEADER + b.size > al.cap {
        ok, r := false, b;
      } else {
        ok := true;
        r := MoveWithin(b, adjSize, loose);
      }
    }

    /** The room given back is too small, so the search ends where it would have. */
    lemma AwayIsSame(b: Block, before: seq<Room>, after: seq<Room>, adjSize: nat, std: nat)
      requires |before| == |after|
      requires forall i :: 0 <= i < |before| ==> before[i] == after[i] || (!HasRoom(before[i], adjSize) && !HasRoom(after[i], adjSize))
      ensures AwaySafe(b, before, adjSize, std) == AwaySafe(b, after, adjSize, std)
    {
      FirstFitSame(before, after, adjSize);
    }

    lemma SentSame(r: Block, was: seq<Arena>, before: seq<Room>, after: seq<Room>, adjSize: nat, std: nat)
      requires |before| == |after| && Sent(r, was, after, adjSize, std)
      requires forall i :: 0 <= i < |before| ==> before[i] == after[i] || (!HasRoom(before[i], adjSize) && !HasRoom(after[i], adjSize))
      ensures Sent(r, was, before, adjSize, std)
    {
      FirstFitSame(before, after, adjSize);
    }

    lemma HeaderOf(b: Block)
      requires Valid() && b in live
      ensures HEADER <= b.off && b.off - HEADER in b.owner.heads && b.owner.heads[b.off - HEADER] == Header(b.size, b.owner)
      ensures b.off + b.size <= b.owner.p <= b.owner.cap
    {
      assert Accounts(b.owner, b.owner.State(), live, 0, std);
      assert BlockIn(b, b.owner.State(), false);
    }
  }

  /** A run in which a shrinking call fails: 64 bytes, 8 bytes behind them, and the
      64 cut to 8. */
  method ShrinkingRun() returns (ok: bool)
    ensures !ok
  {
    hide FirstFit, Destination, Placed, CopySafe, AwaySafe, BlockIn, Accounts, Separate;
    var pal := new Allocator(128);
    ghost var was := pal.arenas;
    var first, a := pal.Alloc(64);
    PlacedAlone(a, was, pal.arenas, 0, 80, 128);
    assert pal.Rooms() == [Room(80, 128)];
    var second, b := pal.Alloc(8);
    PlacedAlone(b, was, pal.arenas, 80, 24, 128);
    assert pal.Rooms() == [Room(104, 128)];
    ShrinkingCopyOverruns(a.owner);
    var r;
    ok, r := pal.Realloc(a, 8);
  }

  lemma PlacedAlone(b: Block, was: seq<Arena>, now: seq<Arena>, p: nat, adjSize: nat, cap: nat)
    requires |was| == 1 && Placed(b, was, now, [Room(p, cap)], adjSize, cap) && p + adjSize <= cap
    ensures now == was && b.owner == was[0] && b.off == p + HEADER
  {
    assert HasRoom([Room(p, cap)][0], adjSize);
  }
}
