/** The elements of a video buffer: esp_video_buffer.c. */
module VideoBuffer {

  import opened Options

  /** An address; null is no address. */
  type Address = nat

  /** The allocator: the blocks that are allocated. */
  class Heap {
    var live: set<Address>

    constructor ()
      ensures live == {}
    {
      live := {};
    }

    /** heap_caps_aligned_alloc: a new block, unless there is none to be had. */
    method Allocate(offer: Option<Address>) returns (p: Option<Address>)
      requires offer.Some? ==> offer.value !in live
      modifies this
      ensures p == offer && live == old(live) + if p.Some? then {p.value} else {}
    {
      p := offer;
      if p.Some? {
        live := live + {p.value};
      }
    }

    method Free(p: Address)
      requires p in live
      modifies this
      ensures live == old(live) - {p}
    {
      live := live - {p};
    }
  }

  /** Addresses that the allocator may hand out: all different, none in use. */
  ghost predicate Offers(offers: seq<Option<Address>>, live: set<Address>) {
    && (forall i :: 0 <= i < |offers| && offers[i].Some? ==> offers[i].value !in live)
    && (forall i, j :: 0 <= i < j < |offers| && offers[i].Some? && offers[j].Some? ==> offers[i].value != offers[j].value)
  }

  ghost function Blocks(s: seq<Option<Address>>): set<Address> {
    set i | 0 <= i < |s| && s[i].Some? :: s[i].value
  }

  lemma BlocksMore(s: seq<Option<Address>>, p: Option<Address>)
    ensures Blocks(s + [p]) == Blocks(s) + if p.Some? then {p.value} else {}
  {
    var t := s + [p];
    forall x | x in Blocks(s)
      ensures x in Blocks(t)
    {
      var i :| 0 <= i < |s| && s[i].Some? && s[i].value == x;
      assert t[i] == s[i];
    }
    if p.Some? {
      assert t[|s|] == p;
    }
  }

  class Buffer {
    const count: nat
    const mmap: bool
    const block: Address
    const buffer: array<Option<Address>>
    const index: array<nat>
    const free: array<bool>
    const validSize: array<nat>

    ghost predicate Shape() {
      && buffer.Length == index.Length == free.Length == validSize.Length == count
      && index != validSize
    }

    /** The zeroed object, in a block of its own; whether the payloads are memory mapped is known from the start. */
    constructor (count: nat, mmap: bool, block: Address)
      ensures Shape() && this.count == count && this.mmap == mmap && this.block == block && fresh(buffer) && fresh(index) && fresh(free) && fresh(validSize)
      ensures forall i :: 0 <= i < count ==> buffer[i].None? && validSize[i] == 0
    {
      this.count := count;
      this.mmap := mmap;
      this.block := block;
      buffer := new Option<Address>[count](i => None);
      index := new nat[count];
      free := new bool[count];
      validSize := new nat[count](i => 0);
    }

    /** All elements are free and know their place. */
    ghost predicate Ready()
      reads this, index, free, validSize
    {
      Shape() && forall i :: 0 <= i < count ==> free[i] && index[i] == i && validSize[i] == 0
    }

    /** esp_video_buffer_reset. */
    method Reset()
      requires Shape()
      modifies free, validSize
      ensures forall i :: 0 <= i < count ==> free[i] && validSize[i] == 0
    {
      for i := 0 to count
        invariant forall j :: 0 <= j < i ==> free[j] && validSize[j] == 0
      {
        free[i] := true;
        validSize[i] := 0;
      }
    }

    /** esp_video_buffer_get_element_by_buffer: the first element with that payload. */
    method GetElementByBuffer(ptr: Option<Address>) returns (e: Option<nat>)
      requires Shape()
      ensures e.None? <==> forall i :: 0 <= i < count ==> buffer[i] != ptr
      ensures e.Some? ==> e.value < count && buffer[e.value] == ptr && forall i :: 0 <= i < e.value ==> buffer[i] != ptr
    {
      for i := 0 to count
        invariant forall j :: 0 <= j < i ==> buffer[j] != ptr
      {
        if buffer[i] == ptr {
          return Some(i);
        }
      }
      e := None;
    }

    /** esp_video_buffer_destroy: the object and its own payloads are given back, and those of the user are left alone. */
    method Destroy(heap: Heap, ghost base: set<Address>)
      requires Shape() && block !in base && (mmap ==> Offers(buffer[..], base + {block}))
      requires heap.live == base + {block} + if mmap then Blocks(buffer[..]) else {}
      modifies heap
      ensures heap.live == base
    {
      if mmap {
        Release(heap, base + {block});
      }
      heap.Free(block);
    }

    /** The payloads given back, here and on the way out of a failed creation. */
    method Release(heap: Heap, ghost base: set<Address>)
      requires Shape() && Offers(buffer[..], base) && heap.live == base + Blocks(buffer[..])
      modifies heap
      ensures heap.live == base
    {
      ghost var all := buffer[..];
      assert all[..0] == [];
      for i := 0 to count
        invariant buffer[..] == all && heap.live == base + (Blocks(all) - Blocks(all[..i])) && Blocks(all[..i]) <= Blocks(all)
      {
        BlocksMore(all[..i], all[i]);
        assert all[..i + 1] == all[..i] + [all[i]];
        if buffer[i].Some? {
          NotYet(all, base, i);
          heap.Free(buffer[i].value);
        }
      }
      assert all[..count] == all;
    }
  }

  /** Each payload is freed once. */
  lemma NotYet(all: seq<Option<Address>>, base: set<Address>, i: nat)
    requires Offers(all, base)
    requires i < |all| && all[i].Some?
    ensures all[i].value in Blocks(all) && all[i].value !in Blocks(all[..i])
  {
  }

  /** The first i elements of a buffer as esp_video_buffer_create has set them. */
  ghost predicate Built(b: Buffer, mmap: bool, offers: seq<Option<Address>>, none: seq<Option<Address>>, i: nat)
    requires |offers| == |none| && i <= |none|
    reads b, b.buffer, b.index, b.free, b.validSize
  {
    && b.Shape() && b.count == |none|
    && (forall j :: 0 <= j < i ==> b.free[j] && b.index[j] == j)
    && (forall j :: 0 <= j < b.count ==> b.validSize[j] == 0)
    && b.buffer[..] == (if mmap then offers[..i] + none[i..] else none)
    && (mmap ==> forall j :: 0 <= j < i ==> offers[j].Some?)
  }

  /** The next element: its payload is allocated if it is to be memory mapped. */
  method BuildNext(b: Buffer, heap: Heap, mmap: bool, offers: seq<Option<Address>>, ghost none: seq<Option<Address>>, i: nat,
                   ghost base: set<Address>) returns (ok: bool)
    requires |offers| == |none| && i < |none| && Built(b, mmap, offers, none, i) && Offers(offers, base)
    requires forall j :: 0 <= j < |none| ==> none[j].None?
    requires heap.live == base + Blocks(b.buffer[..])
    modifies heap, b.buffer, b.index, b.free
    ensures ok <==> !mmap || offers[i].Some?
    ensures heap.live == base + Blocks(b.buffer[..])
    ensures ok ==> Built(b, mmap, offers, none, i + 1)
    ensures !ok ==> b.buffer[..] == offers[..i + 1] + none[i + 1..]
  {
    hide Blocks, Offers;
    ghost var pre := b.buffer[..];
    if mmap {
      FirstBlocks(offers, none, i);
      FirstBlocks(offers, none, i + 1);
      BlocksMore(offers[..i], offers[i]);
      assert offers[..i + 1] == offers[..i] + [offers[i]];
      if offers[i].Some? {
        LaterOffer(offers, base, i);
      }
      var p := heap.Allocate(offers[i]);
      b.buffer[i] := p;
      assert b.buffer[..] == pre[i := p] == offers[..i + 1] + none[i + 1..];
      if p.Some? {
        b.index[i] := i;
        b.free[i] := true;
        ok := true;
      } else {
        ok := false;
      }
    } else {
      b.index[i] := i;
      b.buffer[i] := None;
      b.free[i] := true;
      assert b.buffer[..] == pre;
      ok := true;
    }
  }

  /** esp_video_buffer_create: the object and all elements ready, with a payload each, or nothing left allocated. */
  method Create(heap: Heap, count: nat, mmap: bool, own: Option<Address>, offers: seq<Option<Address>>) returns (r: Option<Buffer>)
    requires |offers| == count && Offers([own] + offers, heap.live)
    modifies heap
    ensures r.Some? <==> own.Some? && (!mmap || forall i :: 0 <= i < count ==> offers[i].Some?)
    ensures r.None? ==> heap.live == old(heap.live)
    ensures r.Some? ==> fresh(r.value) && r.value.Ready() && r.value.count == count && r.value.mmap == mmap && Some(r.value.block) == own
    ensures r.Some? ==> r.value.buffer[..] == if mmap then offers else seq(count, i => None)
    ensures r.Some? ==> heap.live == old(heap.live) + {r.value.block} + Blocks(r.value.buffer[..])
    ensures r.Some? && mmap ==> r.value.block !in old(heap.live) && Offers(r.value.buffer[..], old(heap.live) + {r.value.block})
  {
    hide Blocks, Offers;
    OwnBlock(own, offers, heap.live);
    var p := heap.Allocate(own);
    if p.None? {
      return None;
    }
    ghost var base := heap.live;
    var b := new Buffer(count, mmap, p.value);
    ghost var none: seq<Option<Address>> := seq(count, i => None);
    assert b.buffer[..] == none;
    NoBlocks(none);
    assert offers[..0] + none[0..] == none;
    for i := 0 to count
      invariant Built(b, mmap, offers, none, i) && heap.live == base + Blocks(b.buffer[..])
    {
      var ok := BuildNext(b, heap, mmap, offers, none, i, base);
      if !ok {
        FewerOffers(offers, none, base, i + 1);
        b.Release(heap, base);
        heap.Free(p.value);
        return None;
      }
    }
    assert offers[..count] + none[count..] == offers;
    r := Some(b);
  }

  lemma OwnBlock(own: Option<Address>, offers: seq<Option<Address>>, live: set<Address>)
    requires Offers([own] + offers, live)
    ensures own.Some? ==> own.value !in live && Offers(offers, live + {own.value})
  {
    var all := [own] + offers;
    assert all[0] == own && forall i :: 0 <= i < |offers| ==> all[i + 1] == offers[i];
  }

  lemma NoBlocks(none: seq<Option<Address>>)
    requires forall i :: 0 <= i < |none| ==> none[i].None?
    ensures Blocks(none) == {}
  {
  }

  lemma LaterOffer(offers: seq<Option<Address>>, base: set<Address>, i: nat)
    requires Offers(offers, base) && i < |offers| && offers[i].Some?
    ensures offers[i].value !in base && offers[i].value !in Blocks(offers[..i])
  {
  }

  lemma FirstBlocks(offers: seq<Option<Address>>, none: seq<Option<Address>>, i: nat)
    requires |offers| == |none| && i <= |none| && forall j :: 0 <= j < |none| ==> none[j].None?
    ensures Blocks(offers[..i] + none[i..]) == Blocks(offers[..i])
  {
    var s := offers[..i] + none[i..];
    forall x | x in Blocks(offers[..i])
      ensures x in Blocks(s)
    {
      var j :| 0 <= j < i && offers[..i][j].Some? && offers[..i][j].value == x;
      assert s[j] == offers[..i][j];
    }
  }

  lemma FewerOffers(offers: seq<Option<Address>>, none: seq<Option<Address>>, base: set<Address>, i: nat)
    requires Offers(offers, base) && |offers| == |none| && i <= |none| && forall j :: 0 <= j < |none| ==> none[j].None?
    ensures Offers(offers[..i] + none[i..], base)
  {
  }
}
