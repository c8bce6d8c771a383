/** The page store and its free list (VM/Page.hpp).  Pages of bitsPerPage
    bits are numbered by references below a high-water mark maxReference;
    page 0 is the root page that holds the free pool.  The pool is a stack
    of free page references threaded through free pages themselves: each
    pool page has a count, the reference of the next pool page (its chain)
    and up to Capacity stored references.

    The mapped file is modelled as a page table from reference to the pool
    page a page's memory is read as; pages without an entry read as zero,
    as the bytes ftruncate adds to a file. */
module Pages {

  type Reference = nat

  const BitsPerPage: nat := 0x8000
  const MmapBucketSize: nat := 0x100_0000
  const MmapMaxPageCount: nat := 2000 * 512

  /** The page header: BasePage's 64-bit transaction, the 16-bit count and
      the 64-bit chain. */
  const HeaderBits: nat := 64 + 16 + 64
  const BodyBits: nat := BitsPerPage - HeaderBits
  const ReferenceBits: nat := 64
  const Capacity: nat := (BodyBits - ReferenceBits) / ReferenceBits

  /** bytesForPages: the mapping size for pageCount pages, rounded up to
      whole mmap buckets. */
  function BytesForPages(pageCount: nat): nat
  {
    (pageCount * BitsPerPage + MmapBucketSize - 1) / MmapBucketSize * MmapBucketSize / 8
  }

  /** The mapping is a whole number of buckets and holds every page. */
  lemma BytesForPagesBound(pageCount: nat)
    ensures BytesForPages(pageCount) ==
      (pageCount * BitsPerPage + MmapBucketSize - 1) / MmapBucketSize * (MmapBucketSize / 8)
    ensures BytesForPages(pageCount) >= pageCount * (BitsPerPage / 8)
  {
    var bits := pageCount * BitsPerPage;
    RoundUp(bits, MmapBucketSize);
  }

  lemma RoundUp(x: nat, b: nat)
    requires b > 0
    ensures (x + b - 1) / b * b >= x
  {
    var q, r := (x + b - 1) / b, (x + b - 1) % b;
    assert q * b + r == x + b - 1;
  }

  /** The pages of one mmap bucket. */
  const PagesPerBucket: nat := MmapBucketSize / BitsPerPage

  /** A file of bytesForPages(pageCount) bytes holds exactly the pages of
      the whole buckets that pageCount pages need, so up to
      PagesPerBucket - 1 pages above pageCount stay in it. */
  lemma BucketPages(pageCount: nat, r: Reference)
    ensures r * (BitsPerPage / 8) < BytesForPages(pageCount) <==>
      r < (pageCount + PagesPerBucket - 1) / PagesPerBucket * PagesPerBucket
  {
    assert PagesPerBucket == 512;
    var q, s := (pageCount + 511) / 512, (pageCount + 511) % 512;
    assert pageCount + 511 == q * 512 + s;
    var x := pageCount * 0x8000 + 0xFF_FFFF;
    assert x == q * 0x100_0000 + ((s + 1) * 0x8000 - 1);
    assert x / 0x100_0000 == q;
    assert BytesForPages(pageCount) == q * 0x20_0000;
  }

  // ---------------------------------------------------------------------
  // PagePool::Page

  datatype PoolPage = PoolPage(count: nat, chain: Reference, references: seq<Reference>)
  {
    /** The references array has Capacity slots, count of them in use. */
    predicate WellFormed()
    {
      count <= Capacity && |references| == Capacity
    }

    /** The stored references, oldest first. */
    function Stored(): seq<Reference>
      requires WellFormed()
    {
      references[..count]
    }
  }

  /** A page whose memory is all zero. */
  function ZeroPage(): PoolPage
  {
    PoolPage(0, 0, seq(Capacity, _ => 0))
  }

  /** Page::init(chain): an empty pool page linked to `chain`; the slots
      keep whatever they held. */
  function PageInit(p: PoolPage, chain: Reference): (r: PoolPage)
    requires |p.references| == Capacity
    ensures r.WellFormed() && r.Stored() == [] && r.chain == chain
  {
    p.(count := 0, chain := chain)
  }

  /** Page::push(reference): stores the reference in the next free slot. */
  function PagePush(p: PoolPage, reference: Reference): (r: PoolPage)
    requires p.WellFormed() && p.count < Capacity
    ensures r.WellFormed() && r.Stored() == p.Stored() + [reference] && r.chain == p.chain
  {
    var r := p.(count := p.count + 1, references := p.references[p.count := reference]);
    assert r.Stored() == p.Stored() + [reference];
    r
  }

  /** Page::pop(): takes the last stored reference out. */
  function PagePop(p: PoolPage): (r: (PoolPage, Reference))
    requires p.WellFormed() && p.count > 0
    ensures r.0.WellFormed() && p.Stored() == r.0.Stored() + [r.1] && r.0.chain == p.chain
  {
    var q := p.(count := p.count - 1);
    assert p.Stored() == q.Stored() + [p.references[p.count - 1]];
    (q, p.references[p.count - 1])
  }

  /** Page::pop returns what Page::push stored and leaves the page as it
      was. */
  lemma PagePushPop(p: PoolPage, reference: Reference)
    requires p.WellFormed() && p.count < Capacity
    ensures PagePop(PagePush(p, reference)).1 == reference
    ensures PagePop(PagePush(p, reference)).0.Stored() == p.Stored()
    ensures PagePop(PagePush(p, reference)).0.chain == p.chain
  {
    var q := PagePop(PagePush(p, reference)).0;
    assert q.Stored() + [PagePop(PagePush(p, reference)).1] == p.Stored() + [reference];
  }

  /** Page::contains(item): a scan of the stored references. */
  method PageContains(p: PoolPage, item: Reference) returns (found: bool)
    requires p.WellFormed()
    ensures found <==> item in p.Stored()
  {
    var i := 0;
    while i < p.count
      invariant i <= p.count
      invariant item !in p.references[..i]
    {
      if p.references[i] == item {
        return true;
      }
      assert p.references[..i + 1] == p.references[..i] + [p.references[i]];
      i := i + 1;
    }
    assert p.references[..i] == p.Stored();
    return false;
  }

  // ---------------------------------------------------------------------
  // The pool's contents.

  /** Every page has its Capacity reference slots. */
  ghost predicate Slotted(pages: map<Reference, PoolPage>)
  {
    forall r :: r in pages ==> |pages[r].references| == Capacity
  }

  lemma SlottedWrite(pages: map<Reference, PoolPage>, r: Reference, p: PoolPage)
    requires Slotted(pages) && |p.references| == Capacity
    ensures Slotted(pages[r := p])
  {
  }

  /** A write to one page leaves every other page reading as it did. */
  lemma WriteFrame(before: map<Reference, PoolPage>, after: map<Reference, PoolPage>, w: Reference)
    requires w in after && after == before[w := after[w]]
    ensures forall r: Reference :: r != w ==> Deref(after, r) == Deref(before, r)
  {
  }

  /** The page a reference reads as. */
  function Deref(pages: map<Reference, PoolPage>, reference: Reference): PoolPage
  {
    if reference in pages then pages[reference] else ZeroPage()
  }

  function Reversed(s: seq<Reference>): (r: seq<Reference>)
    ensures |r| == |s|
  {
    if |s| == 0 then [] else [s[|s| - 1]] + Reversed(s[..|s| - 1])
  }

  lemma ReversedPush(s: seq<Reference>, x: Reference)
    ensures Reversed(s + [x]) == [x] + Reversed(s)
  {
    assert (s + [x])[..|s|] == s;
  }

  lemma {:induction false} ReversedMember(s: seq<Reference>, x: Reference)
    ensures x in Reversed(s) <==> x in s
  {
    if |s| > 0 {
      ReversedMember(s[..|s| - 1], x);
      assert s == s[..|s| - 1] + [s[|s| - 1]];
    }
  }

  /** The pool pages from the root on are well formed and linked. */
  ghost predicate ChainOK(chain: seq<Reference>, pages: map<Reference, PoolPage>)
  {
    |chain| == 0 ||
    (chain[0] != 0 && Deref(pages, chain[0]).WellFormed() &&
     Deref(pages, chain[0]).chain == (if |chain| > 1 then chain[1] else 0) &&
     ChainOK(chain[1..], pages))
  }

  /** The free references in the order pop hands them out: on each pool
      page from the root on, its stored references newest first and then
      the pool page itself. */
  ghost function Elements(chain: seq<Reference>, pages: map<Reference, PoolPage>): seq<Reference>
    requires ChainOK(chain, pages)
  {
    if |chain| == 0 then []
    else
      Reversed(Deref(pages, chain[0]).Stored()) + [chain[0]] + Elements(chain[1..], pages)
  }

  /** No reference occurs twice. */
  ghost predicate Distinct(s: seq<Reference>)
  {
    |s| == 0 || (s[0] !in s[1..] && Distinct(s[1..]))
  }

  lemma ChainTail(chain: seq<Reference>, pages: map<Reference, PoolPage>)
    requires |chain| > 0 && ChainOK(chain, pages)
    ensures ChainOK(chain[1..], pages)
    ensures Elements(chain, pages) ==
      Reversed(Deref(pages, chain[0]).Stored()) + [chain[0]] + Elements(chain[1..], pages)
  {
  }

  /** Every pool page is itself one of the pool's elements. */
  lemma {:induction false} ChainInElements(chain: seq<Reference>, pages: map<Reference, PoolPage>, k: nat)
    requires ChainOK(chain, pages) && k < |chain|
    ensures chain[k] in Elements(chain, pages)
  {
    ChainTail(chain, pages);
    if k > 0 {
      ChainInElements(chain[1..], pages, k - 1);
    }
  }

  /** Pages other than the pool pages do not matter to the pool. */
  lemma {:induction false} ElementsFrame(chain: seq<Reference>, pages: map<Reference, PoolPage>, pages2: map<Reference, PoolPage>)
    requires forall i :: 0 <= i < |chain| ==> Deref(pages, chain[i]) == Deref(pages2, chain[i])
    ensures ChainOK(chain, pages) == ChainOK(chain, pages2)
    ensures ChainOK(chain, pages) ==> Elements(chain, pages) == Elements(chain, pages2)
  {
    if |chain| > 0 {
      assert Deref(pages, chain[0]) == Deref(pages2, chain[0]);
      forall i | 0 <= i < |chain| - 1
        ensures Deref(pages, chain[1..][i]) == Deref(pages2, chain[1..][i])
      {
        assert chain[1..][i] == chain[i + 1];
      }
      ElementsFrame(chain[1..], pages, pages2);
    }
  }

  /** A page written apart from the pool pages leaves the pool as it is. */
  lemma WriteOutside(chain: seq<Reference>, pages: map<Reference, PoolPage>, r: Reference, p: PoolPage)
    requires r !in chain
    ensures ChainOK(chain, pages) == ChainOK(chain, pages[r := p])
    ensures ChainOK(chain, pages) ==> Elements(chain, pages) == Elements(chain, pages[r := p])
  {
    forall i | 0 <= i < |chain|
      ensures Deref(pages, chain[i]) == Deref(pages[r := p], chain[i])
    {
      assert chain[i] in chain;
    }
    ElementsFrame(chain, pages, pages[r := p]);
  }

  lemma DistinctCons(x: Reference, s: seq<Reference>)
    ensures Distinct([x] + s) <==> x !in s && Distinct(s)
  {
    assert ([x] + s)[1..] == s;
  }

  /** In a sequence without repeats, nothing of the front is in the back. */
  lemma {:induction false} DistinctAppend(a: seq<Reference>, b: seq<Reference>, x: Reference)
    requires Distinct(a + b) && x in a
    ensures x !in b
  {
    assert (a + b)[1..] == a[1..] + b;
    if a[0] != x {
      DistinctAppend(a[1..], b, x);
    }
  }

  /** In a pool without repeated references the root page is not further
      down the chain. */
  lemma RootOnce(chain: seq<Reference>, pages: map<Reference, PoolPage>)
    requires |chain| > 0 && ChainOK(chain, pages) && Distinct(Elements(chain, pages))
    ensures chain[0] !in chain[1..]
  {
    ChainTail(chain, pages);
    var front := Reversed(Deref(pages, chain[0]).Stored()) + [chain[0]];
    DistinctAppend(front, Elements(chain[1..], pages), chain[0]);
    forall k | 0 <= k < |chain| - 1
      ensures chain[1..][k] != chain[0]
    {
      ChainInElements(chain[1..], pages, k);
    }
  }

  /** A pool rooted at `root`: the pool pages linked from it and no
      reference free twice. */
  ghost predicate PoolOK(root: Reference, chain: seq<Reference>, pages: map<Reference, PoolPage>)
  {
    (root == 0 <==> |chain| == 0) &&
    (|chain| > 0 ==> chain[0] == root) &&
    ChainOK(chain, pages) &&
    Distinct(Elements(chain, pages))
  }

  /** A pool with one more reference on top, that was not free before, is
      a pool. */
  lemma PoolCons(root: Reference, chain: seq<Reference>, pages: map<Reference, PoolPage>,
                 root2: Reference, chain2: seq<Reference>, pages2: map<Reference, PoolPage>, r: Reference)
    requires PoolOK(root, chain, pages) && r !in Elements(chain, pages)
    requires (root2 == 0 <==> |chain2| == 0) && (|chain2| > 0 ==> chain2[0] == root2)
    requires ChainOK(chain2, pages2) && Elements(chain2, pages2) == [r] + Elements(chain, pages)
    ensures PoolOK(root2, chain2, pages2)
  {
    DistinctCons(r, Elements(chain, pages));
  }

  /** A pool with its top reference taken off is a pool without it. */
  lemma PoolUncons(root: Reference, chain: seq<Reference>, pages: map<Reference, PoolPage>,
                   root2: Reference, chain2: seq<Reference>, pages2: map<Reference, PoolPage>, r: Reference)
    requires PoolOK(root, chain, pages)
    requires (root2 == 0 <==> |chain2| == 0) && (|chain2| > 0 ==> chain2[0] == root2)
    requires ChainOK(chain2, pages2) && Elements(chain, pages) == [r] + Elements(chain2, pages2)
    ensures PoolOK(root2, chain2, pages2) && r !in Elements(chain2, pages2)
  {
    DistinctCons(r, Elements(chain2, pages2));
  }

  /** A reference that is not free is not a pool page. */
  lemma NotFreeNotChain(chain: seq<Reference>, pages: map<Reference, PoolPage>, r: Reference)
    requires ChainOK(chain, pages) && r !in Elements(chain, pages)
    ensures r !in chain
  {
    forall k | 0 <= k < |chain|
      ensures chain[k] != r
    {
      ChainInElements(chain, pages, k);
    }
  }

  /** push on an empty pool or one whose root page is full: the pushed
      reference becomes an empty root page linked to the old root. */
  lemma PushNewRoot(root: Reference, chain: seq<Reference>, pages: map<Reference, PoolPage>, r: Reference, p: PoolPage)
    requires PoolOK(root, chain, pages) && r != 0 && r !in Elements(chain, pages)
    requires p.WellFormed() && p.Stored() == [] && p.chain == root
    ensures PoolOK(r, [r] + chain, pages[r := p])
    ensures Elements([r] + chain, pages[r := p]) == [r] + Elements(chain, pages)
  {
    NotFreeNotChain(chain, pages, r);
    WriteOutside(chain, pages, r, p);
    var c := [r] + chain;
    assert c[1..] == chain;
    ChainTail(c, pages[r := p]);
    PoolCons(root, chain, pages, r, c, pages[r := p], r);
  }

  /** Rewriting the root page with the same chain: the pool is the new
      root page's stored references followed by the rest as before. */
  lemma RootWrite(chain: seq<Reference>, pages: map<Reference, PoolPage>, q: PoolPage)
    requires |chain| > 0 && ChainOK(chain, pages) && chain[0] !in chain[1..]
    requires q.WellFormed() && q.chain == Deref(pages, chain[0]).chain
    ensures ChainOK(chain, pages[chain[0] := q])
    ensures Elements(chain, pages[chain[0] := q]) ==
      Reversed(q.Stored()) + [chain[0]] + Elements(chain[1..], pages)
  {
    ChainTail(chain, pages);
    WriteOutside(chain[1..], pages, chain[0], q);
    ChainTail(chain, pages[chain[0] := q]);
  }

  /** The pool pages after the root page is rewritten as q, which
      stores r after what the page stored. */
  lemma RootPushed(chain: seq<Reference>, pages: map<Reference, PoolPage>, r: Reference, q: PoolPage)
    requires |chain| > 0 && ChainOK(chain, pages) && chain[0] !in chain[1..]
    requires q.WellFormed() && q.chain == Deref(pages, chain[0]).chain
    requires q.Stored() == Deref(pages, chain[0]).Stored() + [r]
    ensures ChainOK(chain, pages[chain[0] := q])
    ensures Elements(chain, pages[chain[0] := q]) == [r] + Elements(chain, pages)
  {
    var page := Deref(pages, chain[0]);
    ChainTail(chain, pages);
    RootWrite(chain, pages, q);
    ReversedPush(page.Stored(), r);
  }

  /** push into a root page with room. */
  lemma PushIntoRoot(root: Reference, chain: seq<Reference>, pages: map<Reference, PoolPage>, r: Reference, q: PoolPage)
    requires PoolOK(root, chain, pages) && root != 0 && r !in Elements(chain, pages)
    requires q.WellFormed() && q.chain == Deref(pages, root).chain && q.Stored() == Deref(pages, root).Stored() + [r]
    ensures PoolOK(root, chain, pages[root := q])
    ensures Elements(chain, pages[root := q]) == [r] + Elements(chain, pages)
  {
    RootOnce(chain, pages);
    RootPushed(chain, pages, r, q);
    PoolCons(root, chain, pages, root, chain, pages[root := q], r);
  }

  /** pop on an empty root page: the root page itself is handed out and
      its chain becomes the root. */
  lemma PopRoot(root: Reference, chain: seq<Reference>, pages: map<Reference, PoolPage>)
    requires PoolOK(root, chain, pages) && root != 0 && Deref(pages, root).count == 0
    ensures PoolOK(Deref(pages, root).chain, chain[1..], pages)
    ensures Elements(chain, pages) == [root] + Elements(chain[1..], pages)
    ensures root !in Elements(chain[1..], pages)
  {
    ChainTail(chain, pages);
    assert Reversed(Deref(pages, root).Stored()) == [];
    PoolUncons(root, chain, pages, Deref(pages, root).chain, chain[1..], pages, root);
  }

  /** pop on a root page holding references: the root page is rewritten
      as q, which stores what the page stored except its newest reference
      x. */
  lemma PopFromRoot(root: Reference, chain: seq<Reference>, pages: map<Reference, PoolPage>, q: PoolPage, x: Reference)
    requires PoolOK(root, chain, pages) && root != 0 && Deref(pages, root).WellFormed()
    requires q.WellFormed() && q.chain == Deref(pages, root).chain && Deref(pages, root).Stored() == q.Stored() + [x]
    ensures PoolOK(root, chain, pages[root := q])
    ensures Elements(chain, pages) == [x] + Elements(chain, pages[root := q])
    ensures x !in Elements(chain, pages[root := q])
  {
    RootOnce(chain, pages);
    ChainTail(chain, pages);
    RootWrite(chain, pages, q);
    ReversedPush(q.Stored(), x);
    PoolUncons(root, chain, pages, root, chain, pages[root := q], x);
  }

  /** An empty pool has no elements. */
  lemma PoolEmpty(root: Reference, chain: seq<Reference>, pages: map<Reference, PoolPage>)
    requires PoolOK(root, chain, pages)
    ensures root == 0 <==> Elements(chain, pages) == []
  {
    if root != 0 {
      ChainTail(chain, pages);
    }
  }

  /** Unmapping pages beyond the free references leaves the pool as it
      is. */
  lemma Unmapped(root: Reference, chain: seq<Reference>, pages: map<Reference, PoolPage>, pages2: map<Reference, PoolPage>, count: nat)
    requires PoolOK(root, chain, pages)
    requires forall r :: r in Elements(chain, pages) ==> r < count
    requires forall r: Reference :: r < count ==> Deref(pages2, r) == Deref(pages, r)
    ensures PoolOK(root, chain, pages2) && Elements(chain, pages2) == Elements(chain, pages)
    ensures forall r :: r in chain ==> r < count
  {
    forall k | 0 <= k < |chain|
      ensures chain[k] < count
    {
      ChainInElements(chain, pages, k);
    }
    ElementsFrame(chain, pages, pages2);
  }

  // ---------------------------------------------------------------------
  // PagePool and Storage

  class PagePool {
    var rootReference: Reference
    /** The pool pages, from the root on. */
    ghost var chain: seq<Reference>

    /** A pool as the root page holds it: its root reference, and the pool
        pages from the root on. */
    constructor (rootReference: Reference, ghost chain: seq<Reference>)
      ensures this.rootReference == rootReference && this.chain == chain
    {
      this.rootReference := rootReference;
      this.chain := chain;
    }

    ghost predicate Valid(pages: map<Reference, PoolPage>)
      reads this
    {
      PoolOK(rootReference, chain, pages)
    }

    ghost function Contents(pages: map<Reference, PoolPage>): seq<Reference>
      reads this
      requires ChainOK(chain, pages)
    {
      Elements(chain, pages)
    }

    /** init(): the pool becomes empty. */
    method Init(storage: Storage)
      modifies this
      ensures Valid(storage.pages) && Contents(storage.pages) == []
    {
      rootReference := 0;
      chain := [];
    }

    /** isEmpty(). */
    method IsEmpty(storage: Storage) returns (empty: bool)
      requires Valid(storage.pages)
      ensures empty <==> Contents(storage.pages) == []
    {
      PoolEmpty(rootReference, chain, storage.pages);
      empty := rootReference == 0;
    }

    /** contains(storage, item): walks the pool pages from the root. */
    method Contains(storage: Storage, item: Reference) returns (found: bool)
      requires Valid(storage.pages)
      requires forall r :: r in chain ==> r < storage.maxReference
      ensures found <==> item in Contents(storage.pages)
    {
      var reference := rootReference;
      ghost var rest := chain;
      while reference != 0
        invariant ChainOK(rest, storage.pages)
        invariant reference == if |rest| > 0 then rest[0] else 0
        invariant forall r :: r in rest ==> r in chain
        invariant item in Contents(storage.pages) <==> item in Elements(rest, storage.pages)
        decreases |rest|
      {
        assert rest[0] in rest;
        var page := storage.DereferencePage(reference);
        ChainTail(rest, storage.pages);
        ReversedMember(page.Stored(), item);
        var inPage := PageContains(page, item);
        if reference == item || inPage {
          return true;
        }
        reference := page.chain;
        rest := rest[1..];
      }
      return false;
    }

    /** push(storage, reference): the reference becomes the top of the
        pool, as a new pool page when the pool is empty or its root page
        is full, or else stored in the root page. */
    method Push(storage: Storage, reference: Reference) returns (ghost target: Reference)
      requires Valid(storage.pages) && Slotted(storage.pages)
      requires 0 < reference < storage.maxReference && rootReference < storage.maxReference
      requires reference !in Contents(storage.pages)
      modifies this, storage
      ensures storage.maxReference == old(storage.maxReference)
      ensures Valid(storage.pages) && Slotted(storage.pages)
      ensures chain == [reference] + old(chain) || chain == old(chain)
      ensures Contents(storage.pages) == [reference] + old(Contents(storage.pages))
      ensures target == reference || (old(chain) != [] && target == old(chain)[0] == old(rootReference))
      ensures target in storage.pages && storage.pages == old(storage.pages)[target := storage.pages[target]]
    {
      var at, written, newRoot;
      if rootReference == 0 {
        at, written, newRoot := reference, PageInit(storage.DereferencePage(reference), 0), true;
        PushNewRoot(rootReference, chain, storage.pages, reference, written);
      } else {
        var page := storage.DereferencePage(rootReference);
        if page.count == Capacity {
          at, written, newRoot := reference, PageInit(storage.DereferencePage(reference), rootReference), true;
          PushNewRoot(rootReference, chain, storage.pages, reference, written);
        } else {
          at, written, newRoot := rootReference, PagePush(page, reference), false;
          PushIntoRoot(rootReference, chain, storage.pages, reference, written);
        }
      }
      SlottedWrite(storage.pages, at, written);
      storage.WritePage(at, written);
      target := at;
      if newRoot {
        rootReference, chain := reference, [reference] + chain;
      }
    }

    /** pop(storage): takes the top of a non-empty pool; an empty root page
        is itself handed out and its chain becomes the root. */
    method Pop(storage: Storage) returns (reference: Reference)
      requires Valid(storage.pages) && Slotted(storage.pages)
      requires rootReference < storage.maxReference
      requires Contents(storage.pages) != []
      modifies this, storage
      ensures storage.maxReference == old(storage.maxReference)
      ensures Valid(storage.pages) && Slotted(storage.pages)
      ensures chain == old(chain) || chain == old(chain)[1..]
      ensures reference == old(Contents(storage.pages))[0]
      ensures Contents(storage.pages) == old(Contents(storage.pages))[1..]
      ensures reference !in Contents(storage.pages)
      ensures forall r: Reference :: r != old(rootReference) ==>
        Deref(storage.pages, r) == Deref(old(storage.pages), r)
    {
      PoolEmpty(rootReference, chain, storage.pages);
      var page := storage.DereferencePage(rootReference);
      if page.count == 0 {
        PopRoot(rootReference, chain, storage.pages);
        reference := rootReference;
        rootReference, chain := page.chain, chain[1..];
      } else {
        PopFromRoot(rootReference, chain, storage.pages, PagePop(page).0, PagePop(page).1);
        SlottedWrite(storage.pages, rootReference, PagePop(page).0);
        reference := PagePop(page).1;
        storage.WritePage(rootReference, PagePop(page).0);
      }
    }
  }

  class Storage {
    /** maxReference: the number of pages mapped. */
    var maxReference: Reference
    /** The mapped pages, as the pool pages they read as. */
    var pages: map<Reference, PoolPage>
    /** The free pool kept in the root page. */
    const freePool: PagePool

    /** The root page exists, and the free pool is well formed with every
        free reference naming a mapped page other than the root page. */
    ghost predicate Valid()
      reads this, freePool
    {
      1 <= maxReference < MmapMaxPageCount &&
      Slotted(pages) &&
      freePool.Valid(pages) &&
      (forall r :: r in freePool.chain ==> r < maxReference) &&
      (forall r :: r in freePool.Contents(pages) ==> 0 < r < maxReference)
    }

    ghost function Free(): seq<Reference>
      reads this, freePool
      requires Valid()
    {
      freePool.Contents(pages)
    }

    /** The constructor, opening a storage file of fileBytes bytes: as many
        pages as the file holds, at least the root page.  The file keeps its
        pages (`filePages`, pages without an entry reading as zero) and the
        free pool its root page holds (`poolRoot`, with pool pages `chain`),
        which a file this storage wrote leaves well formed; a new file has
        no pages and an empty pool. */
    constructor (fileBytes: nat, filePages: map<Reference, PoolPage>, poolRoot: Reference, ghost chain: seq<Reference>)
      requires fileBytes / (BitsPerPage / 8) < MmapMaxPageCount
      requires Slotted(filePages) && PoolOK(poolRoot, chain, filePages)
      requires forall r :: r in filePages ==> r < fileBytes / (BitsPerPage / 8)
      requires forall r :: r in Elements(chain, filePages) ==> 0 < r < fileBytes / (BitsPerPage / 8)
      ensures Valid() && pages == filePages && Free() == Elements(chain, filePages)
      ensures maxReference == if fileBytes / (BitsPerPage / 8) == 0 then 1 else fileBytes / (BitsPerPage / 8)
      ensures filePages == map[] && poolRoot == 0 ==> Free() == []
    {
      var count := fileBytes / (BitsPerPage / 8);
      if count == 0 {
        count := 1;
      }
      maxReference := count;
      pages := filePages;
      freePool := new PagePool(poolRoot, chain);
      new;
      forall r | r in chain
        ensures r < maxReference
      {
        if r !in Elements(chain, filePages) {
          NotFreeNotChain(chain, filePages, r);
        }
      }
      if poolRoot == 0 {
        PoolEmpty(poolRoot, chain, filePages);
      }
    }

    /** mapPages(pageCount): the mapping becomes pageCount pages and the
        file is truncated to bytesForPages(pageCount) bytes.  Pages inside
        the file keep their content, pages beyond it lose theirs.  "memory
        exhausted" is a precondition. */
    method MapPages(pageCount: nat)
      requires pageCount < MmapMaxPageCount
      modifies this
      ensures maxReference == pageCount
      ensures forall r: Reference :: r < pageCount ==> Deref(pages, r) == Deref(old(pages), r)
      ensures forall r: Reference :: r in pages <==> r in old(pages) && r * (BitsPerPage / 8) < BytesForPages(pageCount)
      ensures forall r :: r in pages ==> pages[r] == old(pages)[r]
    {
      BytesForPagesBound(pageCount);
      maxReference := pageCount;
      pages := map r: Reference | r in pages && r * (BitsPerPage / 8) < BytesForPages(pageCount) :: pages[r];
    }

    /** dereferencePage(reference): only mapped pages can be reached. */
    function DereferencePage(reference: Reference): (page: PoolPage)
      reads this
      requires reference < maxReference
      ensures page == Deref(pages, reference)
    {
      Deref(pages, reference)
    }

    /** Writing a pool page into page memory. */
    method WritePage(reference: Reference, page: PoolPage)
      requires reference < maxReference
      modifies this
      ensures pages == old(pages)[reference := page] && maxReference == old(maxReference)
    {
      pages := pages[reference := page];
    }

    /** aquirePage(): a page from the free pool, or else a new page at the
        end of the mapping. */
    method AquirePage() returns (reference: Reference)
      requires Valid()
      requires Free() == [] ==> maxReference + 1 < MmapMaxPageCount
      modifies this, freePool
      ensures Valid()
      ensures old(Free()) == [] ==>
        reference == old(maxReference) && maxReference == old(maxReference) + 1 && Free() == []
      ensures old(Free()) != [] ==>
        reference == old(Free())[0] && Free() == old(Free())[1..] && maxReference == old(maxReference)
      ensures 0 < reference < maxReference && reference !in Free()
      ensures forall r: Reference :: r < old(maxReference) && r !in old(Free()) ==> Deref(pages, r) == Deref(old(pages), r)
    {
      var empty := freePool.IsEmpty(this);
      if empty {
        MapPages(maxReference + 1);
        reference := maxReference - 1;
        assert freePool.chain == [];
      } else {
        ghost var free0, chain0 := Free(), freePool.chain;
        assert chain0[0] in chain0;
        ChainInElements(chain0, pages, 0);
        reference := freePool.Pop(this);
        assert forall r :: r in freePool.chain ==> r in chain0;
        assert reference in free0;
        assert forall r :: r in freePool.Contents(pages) ==> r in free0;
      }
    }

    /** releasePage(reference): the last page is unmapped, any other page
        goes to the free pool.  The page must be in use. */
    method ReleasePage(reference: Reference)
      requires Valid()
      requires 0 < reference < maxReference && reference !in Free()
      modifies this, freePool
      ensures Valid()
      ensures reference == old(maxReference) - 1 ==>
        maxReference == old(maxReference) - 1 && Free() == old(Free())
      ensures reference != old(maxReference) - 1 ==>
        maxReference == old(maxReference) && Free() == [reference] + old(Free())
      ensures forall r: Reference :: r < maxReference && r !in old(Free()) && r != reference ==>
        Deref(pages, r) == Deref(old(pages), r)
    {
      if reference == maxReference - 1 {
        ghost var pages0 := pages;
        MapPages(maxReference - 1);
        Unmapped(freePool.rootReference, freePool.chain, pages0, pages, maxReference);
        assert Slotted(pages);
      } else {
        if freePool.rootReference != 0 {
          assert freePool.chain[0] in freePool.chain;
        }
        ghost var pages0, chain0 := pages, freePool.chain;
        ghost var target := freePool.Push(this, reference);
        if target != reference {
          ChainInElements(chain0, pages0, 0);
        }
        WriteFrame(pages0, pages, target);
      }
    }
  }
}
