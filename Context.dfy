/** The index of Ontology/Context.hpp, the newer generation of the triple
    store: `topIndex` maps each symbol to its SymbolObject (six
    sub-indices and a blob), `blobIndex` finds a symbol by the content of
    its blob, and `nextSymbol` is the next symbol create hands out.
    Entries are erased again once nothing refers to them, and the
    operations report their failures as exceptions, modelled as the
    `Outcome` they return. */
module Contexts {
  import opened Triples
  import opened Ontology

  type Blob = seq<bool>

  /** A result, or the message of the exception raised instead. */
  datatype Outcome<T> = Success(value: T) | Failure(message: string)

  const Nonexistent: string := "Symbol is Nonexistent"
  const InvalidMode: string := "Invalid Mode Value"
  const AlreadyLinked: string := "Already linked"
  const AlreadyUnlinked: string := "Already unlinked"
  const AlreadyDestroyed: string := "Already destroyed"
  const Ambiguous: string := "Nonexistent or Ambiguous"

  /** The searches that start from a given alpha; in a Context they raise
      an exception when that alpha has no entry. */
  predicate FromAlpha(r: Routine)
  {
    r == GGG || r == GGV || r == GVV || r == GIV || r == GVI
  }

  /** The query a mode names exists (a valid mode with a search routine). */
  predicate Answerable(mode: nat)
  {
    mode < 27 && Lookup(mode).routine.Some?
  }

  /** A query the Context refuses for want of the alpha's entry. */
  ghost predicate Unanchored(table: Table, indexMode: nat, mode: nat, t: Triple)
    requires Answerable(mode)
  {
    var p := Dispatch(mode, indexMode).value;
    FromAlpha(p.routine) && Reordered(t, p.subIndex).entity !in table
  }

  /** Where the Context raises "Symbol is Nonexistent" the index of
      Triple.hpp, which answers the same query without raising, finds
      nothing: both generations agree on every query that has an answer. */
  lemma UnanchoredFindsNothing(table: Table, indexMode: nat, mode: nat, t: Triple)
    requires Answerable(mode) && Unanchored(table, indexMode, mode, t)
    ensures forall x :: !Answer(table, Dispatch(mode, indexMode).value.routine,
      Dispatch(mode, indexMode).value.subIndex, Reordered(t, Dispatch(mode, indexMode).value.subIndex), x)
  {
  }

  /** The blob of s's SymbolObject: a symbol without a recorded blob has
      the empty blob of a new SymbolObject. */
  function BlobIn(blobs: map<Symbol, Blob>, s: Symbol): (b: Blob)
    ensures s in blobs ==> b == blobs[s]
    ensures s !in blobs ==> b == []
  {
    if s in blobs then blobs[s] else []
  }

  /** The blob index after unindexBlob of each symbol of ss: the entries
      that lead a symbol of ss to its own blob are gone. */
  function Unindexed(index: map<Blob, Symbol>, blobs: map<Symbol, Blob>, ss: set<Symbol>): (r: map<Blob, Symbol>)
    ensures forall c :: c in r <==> c in index && !(index[c] in ss && BlobIn(blobs, index[c]) == c)
    ensures forall c :: c in r ==> r[c] == index[c]
  {
    map c | c in index && !(index[c] in ss && BlobIn(blobs, index[c]) == c) :: index[c]
  }

  /** Unindexing one more symbol. */
  lemma UnindexedStep(index: map<Blob, Symbol>, blobs: map<Symbol, Blob>, ss: set<Symbol>, s: Symbol)
    ensures var before := Unindexed(index, blobs, ss); var c := BlobIn(blobs, s);
      Unindexed(index, blobs, ss + {s}) == if c in before && before[c] == s then before - {c} else before
  {
  }

  /** Unindexing the symbols of ss and then s is unindexing ss + {s}. */
  lemma UnindexedTwice(index: map<Blob, Symbol>, blobs: map<Symbol, Blob>, ss: set<Symbol>, s: Symbol)
    ensures Unindexed(Unindexed(index, blobs, ss), blobs, {s}) == Unindexed(index, blobs, ss + {s})
  {
    var twice := Unindexed(Unindexed(index, blobs, ss), blobs, {s});
    var once := Unindexed(index, blobs, ss + {s});
    assert forall c :: c in twice <==> c in once;
  }

  /** Removing the keys of r and then a is removing those of r + {a}. */
  lemma MinusMore<K, V>(m: map<K, V>, r: set<K>, a: K)
    ensures (m - r) - {a} == m - (r + {a})
  {
    assert forall k :: k in (m - r) - {a} <==> k in m - (r + {a});
  }

  /** The triples create links: the new symbol with each pair. */
  function LinksOf(symbol: Symbol, links: set<(Symbol, Symbol)>): (ts: set<Triple>)
    ensures forall x :: x in ts <==> x.entity == symbol && (x.attribute, x.value) in links
  {
    set l | l in links :: Triple(symbol, l.0, l.1)
  }

  lemma LinksOfStep(symbol: Symbol, done: set<(Symbol, Symbol)>, rest: set<(Symbol, Symbol)>, l: (Symbol, Symbol))
    requires l in rest && rest !! done
    ensures LinksOf(symbol, done + {l}) == LinksOf(symbol, done) + {Triple(symbol, l.0, l.1)}
    ensures Triple(symbol, l.0, l.1) !in LinksOf(symbol, done)
  {
  }

  /** A new, empty entry keeps the index consistent. */
  lemma NewEntryConsistent(table: Table, mode: nat, a: Symbol)
    requires WellFormed(table) && a !in table
    ensures WellFormed(table[a := EmptySubIndices()])
    ensures forall o, x :: Has(table[a := EmptySubIndices()], o, x) <==> Has(table, o, x)
    ensures Consistent(table, mode) ==> Consistent(table[a := EmptySubIndices()], mode)
  {
    NewEntry(table, a);
    var grown := table[a := EmptySubIndices()];
    if Consistent(table, mode) {
      forall o | 0 < o < mode
        ensures Mirrors(grown, o)
      {
        assert Mirrors(table, o);
      }
    }
  }

  // ---------------------------------------------------------------------
  // unlink(triples, allowFailure, symbols): the triples are taken out of
  // the sub-indices of every symbol they mention, except the skipped
  // symbols (`symbols`), whose entries are erased as a whole at the end.

  /** Orientation o's x stands for a triple of `done`, and x's alpha is
      not skipped: unlink has taken it out. */
  ghost predicate Gone(mode: nat, skip: set<Symbol>, done: set<Triple>, o: nat, x: Triple)
  {
    o < mode && o < 6 && x.entity !in skip && Normalized(x, o) in done
  }

  /** The same, counting also triple y's rounds below k (and orientation k
      itself when `half`, the forward half of round k). */
  ghost predicate Taken(mode: nat, skip: set<Symbol>, done: set<Triple>, y: Triple, k: nat, half: bool, o: nat, x: Triple)
  {
    Gone(mode, skip, done, o, x) ||
    (o < mode && o < 6 && x.entity !in skip && Normalized(x, o) == y && (AlphaPos(o) < k || (half && o == k)))
  }

  /** The table is `start` with what unlink has taken out removed; no
      entry has been erased yet. */
  ghost predicate Cleared(start: Table, table: Table, mode: nat, skip: set<Symbol>, done: set<Triple>, y: Triple, k: nat, half: bool)
  {
    && WellFormed(table) && InactiveEmpty(table, mode) && table.Keys == start.Keys
    && (forall o: nat, x :: Has(table, o, x) <==> Has(start, o, x) && !Taken(mode, skip, done, y, k, half, o, x))
  }

  /** Every active position of y is skipped, so unlink checks nothing of y. */
  ghost predicate SkipsAll(mode: nat, skip: set<Symbol>, y: Triple)
  {
    forall j :: 0 <= j < IndexCount(mode) ==> y.Pos(j) in skip
  }

  /** Some triple unlink checks is not in the index: it fails. */
  ghost predicate Missing(table: Table, mode: nat, skip: set<Symbol>, triples: set<Triple>)
  {
    exists y :: y in triples && !Has(table, EAV, y) && !SkipsAll(mode, skip, y)
  }

  /** Every skipped symbol a triple mentions in an active position has an
      entry, which the erasure of the unused entries looks at. */
  ghost predicate SkipIndexed(table: Table, mode: nat, skip: set<Symbol>, triples: set<Triple>)
  {
    forall y, j :: y in triples && 0 <= j < IndexCount(mode) && y.Pos(j) in skip ==> y.Pos(j) in table
  }

  /** Some triple of `triples` involves d: d is dirty. */
  ghost predicate Touched(mode: nat, triples: set<Triple>, d: Symbol)
  {
    exists y :: y in triples && Involves(mode, y, d)
  }

  /** Every triple of the table that involves d is among `triples`. */
  ghost predicate Emptied(table: Table, mode: nat, triples: set<Triple>, d: Symbol)
  {
    forall y :: Has(table, EAV, y) && Involves(mode, y, d) ==> y in triples
  }

  /** Every triple involving a skipped symbol is unlinked with it, as
      destroy arranges. */
  ghost predicate Covered(table: Table, mode: nat, skip: set<Symbol>, triples: set<Triple>)
  {
    forall y :: Has(table, EAV, y) && InvolvesAny(mode, y, skip) ==> y in triples
  }

  /** The symbols unindexBlob is called for: the entities of the BlobType
      triples. */
  function BlobEntities(triples: set<Triple>): (es: set<Symbol>)
    ensures forall e :: e in es <==> exists y :: y in triples && y.attribute == BlobType && y.entity == e
  {
    set y | y in triples && y.attribute == BlobType :: y.entity
  }

  lemma BlobEntitiesStep(done: set<Triple>, y: Triple)
    ensures BlobEntities(done + {y}) == BlobEntities(done) + (if y.attribute == BlobType then {y.entity} else {})
  {
  }

  lemma TouchedStep(mode: nat, done: set<Triple>, y: Triple, d: Symbol)
    requires IsIndexMode(mode)
    ensures Touched(mode, done + {y}, d) <==> Touched(mode, done, d) || d in Positions(y, IndexCount(mode))
  {
    if Touched(mode, done + {y}, d) && !Touched(mode, done, d) {
      var z :| z in done + {y} && Involves(mode, z, d);
      assert z == y;
    }
    if d in Positions(y, IndexCount(mode)) {
      assert Involves(mode, y, d);
    }
  }

  /** Round k of triple y finds its forward pair exactly when y is in the
      index. */
  lemma ClearedFinds(start: Table, table: Table, mode: nat, skip: set<Symbol>, done: set<Triple>, y: Triple, k: nat)
    requires IsIndexMode(mode) && Consistent(start, mode) && k < IndexCount(mode)
    requires Cleared(start, table, mode, skip, done, y, k, false) && y !in done && y.Pos(k) !in skip
    ensures Reordered(y, k).entity == y.Pos(k)
    ensures Has(table, k, Reordered(y, k)) <==> Has(start, EAV, y)
    ensures Has(start, EAV, y) ==> y.Pos(k) in table
  {
    AlphaOf(y, k);
    NormalizedReordered(y, k);
    PresentEverywhere(start, mode, y, k);
  }

  /** The forward half of round k. */
  lemma ClearedForward(start: Table, table: Table, mode: nat, skip: set<Symbol>, done: set<Triple>, y: Triple, k: nat)
    requires IsIndexMode(mode) && k < IndexCount(mode) && y.Pos(k) !in skip
    requires Cleared(start, table, mode, skip, done, y, k, false) && Reordered(y, k).entity in table
    ensures Cleared(start, Unlinked(table, k, Reordered(y, k)), mode, skip, done, y, k, true)
  {
    var r := Reordered(y, k);
    AlphaOf(y, k);
    NormalizedReordered(y, k);
    DroppedHas(table, mode, k, r);
    forall o: nat, x | o < 6
      ensures Taken(mode, skip, done, y, k, true, o, x) <==> Taken(mode, skip, done, y, k, false, o, x) || (o == k && x == r)
    {
      NormalizedReordered(x, o);
    }
  }

  /** The inverse half of round k in HexaIndex. */
  lemma ClearedInverse(start: Table, table: Table, mode: nat, skip: set<Symbol>, done: set<Triple>, y: Triple, k: nat)
    requires mode == HexaIndex && k < 3 && y.Pos(k) !in skip
    requires Cleared(start, table, mode, skip, done, y, k, true) && Reordered(y, k + 3).entity in table
    ensures Cleared(start, Unlinked(table, k + 3, Reordered(y, k + 3)), mode, skip, done, y, k + 1, false)
  {
    var r := Reordered(y, k + 3);
    AlphaOf(y, k + 3);
    NormalizedReordered(y, k + 3);
    DroppedHas(table, mode, k + 3, r);
    forall o: nat, x | o < 6
      ensures Taken(mode, skip, done, y, k + 1, false, o, x) <==> Taken(mode, skip, done, y, k, true, o, x) || (o == k + 3 && x == r)
    {
      NormalizedReordered(x, o);
    }
  }

  /** Outside HexaIndex round k ends with its forward half. */
  lemma ClearedRoundEnd(start: Table, table: Table, mode: nat, skip: set<Symbol>, done: set<Triple>, y: Triple, k: nat)
    requires IsIndexMode(mode) && mode != HexaIndex && k < IndexCount(mode)
    requires Cleared(start, table, mode, skip, done, y, k, true)
    ensures Cleared(start, table, mode, skip, done, y, k + 1, false)
  {
    forall o: nat, x | o < 6
      ensures Taken(mode, skip, done, y, k + 1, false, o, x) <==> Taken(mode, skip, done, y, k, true, o, x)
    {
    }
  }

  /** A round whose symbol is skipped changes nothing. */
  lemma ClearedSkipped(start: Table, table: Table, mode: nat, skip: set<Symbol>, done: set<Triple>, y: Triple, k: nat)
    requires k < 3 && y.Pos(k) in skip
    requires Cleared(start, table, mode, skip, done, y, k, false)
    ensures Cleared(start, table, mode, skip, done, y, k + 1, false)
  {
    forall o: nat, x | o < 6
      ensures Taken(mode, skip, done, y, k + 1, false, o, x) <==> Taken(mode, skip, done, y, k, false, o, x)
    {
      NormalizedReordered(x, o);
      AlphaOf(y, o);
    }
  }

  /** After y's last round, y counts among the triples done. */
  lemma ClearedCommit(start: Table, table: Table, mode: nat, skip: set<Symbol>, done: set<Triple>, y: Triple, z: Triple)
    requires IsIndexMode(mode)
    requires Cleared(start, table, mode, skip, done, y, IndexCount(mode), false)
    ensures Cleared(start, table, mode, skip, done + {y}, z, 0, false)
  {
    forall o: nat, x | o < 6
      ensures Taken(mode, skip, done + {y}, z, 0, false, o, x) <==> Taken(mode, skip, done, y, IndexCount(mode), false, o, x)
    {
    }
  }

  /** Without skipped symbols, what unlink has cleared is consistent. */
  lemma ClearedConsistent(start: Table, table: Table, mode: nat, done: set<Triple>, y: Triple)
    requires IsIndexMode(mode) && Consistent(start, mode) && Cleared(start, table, mode, {}, done, y, 0, false)
    ensures Consistent(table, mode)
  {
    forall o | 0 < o < mode
      ensures Mirrors(table, o)
    {
      assert Mirrors(start, o);
      forall r
        ensures Has(table, o, r) <==> Has(table, EAV, Normalized(r, o))
      {
        NormalizedReordered(r, o);
      }
    }
  }

  /** The entry of a symbol that is not skipped is unused after the
      rounds exactly when every triple involving it was unlinked. */
  lemma ClearedUnused(start: Table, table: Table, mode: nat, skip: set<Symbol>, done: set<Triple>, y: Triple, d: Symbol)
    requires IsIndexMode(mode) && Consistent(start, mode) && Cleared(start, table, mode, skip, done, y, 0, false)
    requires d in start && d !in skip
    ensures Unused(table, mode, d) <==> Emptied(start, mode, done, d)
  {
    if Unused(table, mode, d) {
      forall x | Has(start, EAV, x) && Involves(mode, x, d)
        ensures x in done
      {
        var j := if x.entity == d then 0 else if x.attribute == d then 1 else 2;
        PresentEverywhere(start, mode, x, j);
        AlphaOf(x, j);
        NormalizedReordered(x, j);
        assert !Has(table, j, Reordered(x, j));
      }
    }
    if Emptied(start, mode, done, d) && !Unused(table, mode, d) {
      var j :| 0 <= j < IndexCount(mode) && table[d][j] != map[];
      var b :| b in table[d][j];
      var g :| g in table[d][j][b];
      var r := Triple(d, b, g);
      assert Has(table, j, r);
      NormalizedReordered(r, j);
      var x := Normalized(r, j);
      PresentEverywhere(start, mode, x, j);
      AlphaOf(x, j);
      assert Involves(mode, x, d);
    }
  }

  /** The table after unlink's two erasures: first the dirty entries
      left unused, then the skipped symbols. */
  ghost function Erased(table: Table, mode: nat, dirty: set<Symbol>, skip: set<Symbol>): Table
  {
    table - Releasable(table, mode, dirty) - skip
  }

  /** Which entries survive unlink: a skipped symbol's never, a touched
      symbol's only while some triple not unlinked involves it. */
  lemma ErasedKeys(start: Table, mid: Table, mode: nat, skip: set<Symbol>, triples: set<Triple>, y: Triple, dirty: set<Symbol>)
    requires IsIndexMode(mode) && Consistent(start, mode) && Cleared(start, mid, mode, skip, triples, y, 0, false)
    requires forall d :: d in dirty <==> Touched(mode, triples, d)
    ensures forall d :: d in Erased(mid, mode, dirty, skip) <==>
      d in start && d !in skip && !(Touched(mode, triples, d) && Emptied(start, mode, triples, d))
    ensures forall a :: a in Erased(mid, mode, dirty, skip) ==> Erased(mid, mode, dirty, skip)[a] == mid[a]
  {
    forall d | d in start && d !in skip
      ensures Unused(mid, mode, d) <==> Emptied(start, mode, triples, d)
    {
      ClearedUnused(start, mid, mode, skip, triples, y, d);
    }
  }

  /** What the index holds after unlink. */
  lemma ErasedHas(start: Table, mid: Table, mode: nat, skip: set<Symbol>, triples: set<Triple>, y: Triple, dirty: set<Symbol>)
    requires IsIndexMode(mode) && Consistent(start, mode) && Cleared(start, mid, mode, skip, triples, y, 0, false)
    requires forall d :: d in dirty <==> Touched(mode, triples, d)
    ensures forall o: nat, x :: Has(Erased(mid, mode, dirty, skip), o, x) <==>
      x.entity in Erased(mid, mode, dirty, skip) && Has(start, o, x) && !Gone(mode, skip, triples, o, x)
    ensures forall x :: Has(Erased(mid, mode, dirty, skip), EAV, x) <==> Has(start, EAV, x) && x !in triples && x.entity !in skip
  {
    ErasedKeys(start, mid, mode, skip, triples, y, dirty);
    var final := Erased(mid, mode, dirty, skip);
    forall o: nat, x
      ensures Has(final, o, x) <==> x.entity in final && Has(start, o, x) && !Gone(mode, skip, triples, o, x)
    {
      assert Has(mid, o, x) <==> Has(start, o, x) && !Taken(mode, skip, triples, y, 0, false, o, x);
    }
    forall x | Has(start, EAV, x) && x !in triples && x.entity !in skip
      ensures x.entity in Erased(mid, mode, dirty, skip)
    {
      assert Involves(mode, x, x.entity);
    }
  }

  /** With every triple involving a skipped symbol among those unlinked,
      the index is consistent after unlink. */
  lemma ErasedConsistent(start: Table, mid: Table, mode: nat, skip: set<Symbol>, triples: set<Triple>, y: Triple, dirty: set<Symbol>)
    requires IsIndexMode(mode) && Consistent(start, mode) && Cleared(start, mid, mode, skip, triples, y, 0, false)
    requires forall d :: d in dirty <==> Touched(mode, triples, d)
    requires Covered(start, mode, skip, triples)
    ensures Consistent(Erased(mid, mode, dirty, skip), mode)
  {
    var final := Erased(mid, mode, dirty, skip);
    ErasedKeys(start, mid, mode, skip, triples, y, dirty);
    ErasedHas(start, mid, mode, skip, triples, y, dirty);
    forall o | 0 < o < mode
      ensures Mirrors(final, o)
    {
      assert Mirrors(start, o);
      forall r
        ensures Has(final, o, r) <==> Has(final, EAV, Normalized(r, o))
      {
        var n := Normalized(r, o);
        NormalizedReordered(r, o);
        AlphaOf(n, o);
        if Has(start, EAV, n) && n !in triples {
          assert Involves(mode, n, r.entity);
          assert !InvolvesAny(mode, n, skip);
        }
      }
    }
  }


  /** A table cleared up to the start of some triple's rounds is cleared
      up to the start of any other's. */
  lemma ClearedAny(start: Table, table: Table, mode: nat, skip: set<Symbol>, done: set<Triple>, y: Triple, z: Triple)
    requires Cleared(start, table, mode, skip, done, y, 0, false)
    ensures Cleared(start, table, mode, skip, done, z, 0, false)
  {
    forall o: nat, x
      ensures Taken(mode, skip, done, z, 0, false, o, x) <==> Taken(mode, skip, done, y, 0, false, o, x)
    {
    }
  }

  /** A triple unlink has passed has an entry for each of its symbols
      that the mode indexes. */
  lemma FoundIndexed(start: Table, mode: nat, skip: set<Symbol>, triples: set<Triple>, y: Triple)
    requires IsIndexMode(mode) && Consistent(start, mode) && SkipIndexed(start, mode, skip, triples)
    requires y in triples && (Has(start, EAV, y) || SkipsAll(mode, skip, y))
    ensures Positions(y, IndexCount(mode)) <= start.Keys
  {
    forall d | d in Positions(y, IndexCount(mode))
      ensures d in start
    {
      var j := if mode == MonoIndex || d == y.entity then 0 else if d == y.attribute then 1 else 2;
      assert y.Pos(j) == d;
      if d !in skip {
        AlphaOf(y, j);
        NormalizedReordered(y, j);
        PresentEverywhere(start, mode, y, j);
      }
    }
  }

  /** The emptiness test of unlink's second loop: none of the maintained
      sub-indices of alpha's entry holds a pair. */
  method IsUnused(table: Table, mode: nat, alpha: Symbol) returns (empty: bool)
    requires IsIndexMode(mode) && alpha in table && |table[alpha]| == 6
    ensures empty <==> Unused(table, mode, alpha)
  {
    var count := IndexCount(mode);
    var i := 0;
    while i < count
      invariant 0 <= i <= count
      invariant forall o :: 0 <= o < i ==> table[alpha][o] == map[]
    {
      if table[alpha][i] != map[] {
        return false;
      }
      i := i + 1;
    }
    empty := true;
  }

  /** unlink's second loop, on the table and blobs it is given: the entries
      of the dirty symbols that are unused go, and with their SymbolObjects
      their blobs. */
  method Unreferenced(table: Table, blobs: map<Symbol, Blob>, mode: nat, dirty: set<Symbol>)
    returns (erased: Table, kept: map<Symbol, Blob>)
    requires IsIndexMode(mode) && forall a | a in dirty :: a in table && |table[a]| == 6
    ensures erased == table - Releasable(table, mode, dirty)
    ensures kept == blobs - Releasable(table, mode, dirty)
  {
    erased, kept := table, blobs;
    var rest := dirty;
    ghost var gone: set<Symbol> := {};
    while rest != {}
      invariant rest <= dirty
      invariant forall s :: s in gone <==> s in dirty && s !in rest && Unused(table, mode, s)
      invariant erased == table - gone && kept == blobs - gone
      decreases |rest|
    {
      var alpha :| alpha in rest;
      assert alpha !in gone && alpha in table;
      var empty := IsUnused(erased, mode, alpha);
      if empty {
        MinusMore(table, gone, alpha);
        MinusMore(blobs, gone, alpha);
        erased := erased - {alpha};
        kept := kept - {alpha};
        gone := gone + {alpha};
      }
      rest := rest - {alpha};
    }
    assert gone == Releasable(table, mode, dirty);
  }

  /** Unindexing no symbol leaves the blob index as it is. */
  lemma UnindexedNothing(index: map<Blob, Symbol>, blobs: map<Symbol, Blob>)
    ensures Unindexed(index, blobs, {}) == index
  {
    assert forall c :: c in Unindexed(index, blobs, {}) <==> c in index;
  }

  /** The triples of EAV that involve alpha: what destroy unlinks. */
  ghost function Involving(table: Table, mode: nat, alpha: Symbol): (ts: set<Triple>)
    requires WellFormed(table)
    ensures forall x :: x in ts <==> Has(table, EAV, x) && Involves(mode, x, alpha)
  {
    set x | x in Stored(table) && Involves(mode, x, alpha)
  }

  /** The triples of EAV with entity e and attribute a: what unlink of a
      pair unlinks. */
  ghost function PairTriples(table: Table, e: Symbol, a: Symbol): (ts: set<Triple>)
    requires WellFormed(table)
    ensures forall x :: x in ts <==> Has(table, EAV, x) && x.entity == e && x.attribute == a
  {
    set g | g in ValuesOf(table, e, a) :: Triple(e, a, g)
  }

  /** One of the first i positions of x that the mode indexes holds s. */
  predicate InvolvedBelow(mode: nat, x: Triple, s: Symbol, i: nat)
  {
    exists j :: 0 <= j < i && j < IndexCount(mode) && x.Pos(j) == s
  }

  /** The triples destroy finds in alpha's sub-index i, normalized. */
  lemma CollectStep(table: Table, mode: nat, alpha: Symbol, i: nat, emitted: seq<Triple>)
    requires IsIndexMode(mode) && Consistent(table, mode) && i < 3
    requires forall x :: x in emitted <==> Has(table, i, x) && x.entity == alpha
    ensures forall n :: n in (set x | x in emitted :: Normalized(x, i)) <==>
      Has(table, EAV, n) && i < IndexCount(mode) && n.Pos(i) == alpha
  {
    forall n
      ensures n in (set x | x in emitted :: Normalized(x, i)) <==>
        Has(table, EAV, n) && i < IndexCount(mode) && n.Pos(i) == alpha
    {
      AlphaOf(n, i);
      NormalizedReordered(n, i);
      if n in (set x | x in emitted :: Normalized(x, i)) {
        var x :| x in emitted && n == Normalized(x, i);
        NormalizedReordered(x, i);
        assert i < mode && i < IndexCount(mode);
        PresentEverywhere(table, mode, n, i);
      }
      if Has(table, EAV, n) && i < IndexCount(mode) && n.Pos(i) == alpha {
        PresentEverywhere(table, mode, n, i);
        assert Reordered(n, i) in emitted;
      }
    }
  }

  /** One more sub-index searched: the triples found so far and those
      found in sub-index i are those involving alpha below i + 1. */
  lemma CollectAdvance(table: Table, mode: nat, alpha: Symbol, i: nat, triples: set<Triple>, added: set<Triple>)
    requires forall x :: x in triples <==> Has(table, EAV, x) && InvolvedBelow(mode, x, alpha, i)
    requires forall n :: n in added <==> Has(table, EAV, n) && i < IndexCount(mode) && n.Pos(i) == alpha
    ensures forall x :: x in triples + added <==> Has(table, EAV, x) && InvolvedBelow(mode, x, alpha, i + 1)
  {
    forall x
      ensures InvolvedBelow(mode, x, alpha, i + 1) <==> InvolvedBelow(mode, x, alpha, i) || (i < IndexCount(mode) && x.Pos(i) == alpha)
    {
      if InvolvedBelow(mode, x, alpha, i + 1) && !InvolvedBelow(mode, x, alpha, i) {
        var j :| 0 <= j < i + 1 && j < IndexCount(mode) && x.Pos(j) == alpha;
        assert j == i;
      }
    }
  }

  /** destroy's loops: the triples of alpha's sub-indices EAV, AVE and
      VEA, normalized, are the triples of EAV that involve alpha. */
  method CollectInvolving(table: Table, mode: nat, alpha: Symbol) returns (triples: set<Triple>)
    requires IsIndexMode(mode) && Consistent(table, mode)
    ensures triples == Involving(table, mode, alpha)
  {
    triples := {};
    var i := 0;
    while i < 3
      invariant 0 <= i <= 3
      invariant forall x :: x in triples <==> Has(table, EAV, x) && InvolvedBelow(mode, x, alpha, i)
    {
      var _, emitted := SearchGVV(table, i, Triple(alpha, Void, Void));
      CollectStep(table, mode, alpha, i, emitted);
      var added := set x | x in emitted :: Normalized(x, i);
      CollectAdvance(table, mode, alpha, i, triples, added);
      triples := triples + added;
      i := i + 1;
    }
    forall x
      ensures InvolvedBelow(mode, x, alpha, 3) <==> Involves(mode, x, alpha)
    {
      if Involves(mode, x, alpha) {
        var j := if x.entity == alpha then 0 else if x.attribute == alpha then 1 else 2;
        assert x.Pos(j) == alpha;
      }
    }
  }

  /** setSolitary's callback: whether t's value is among the values, and
      the triples with each of the other values. */
  method SplitValues(t: Triple, values: seq<Symbol>) returns (toLink: bool, others: set<Triple>)
    ensures toLink <==> t.value !in values
    ensures forall x :: x in others <==>
      x.entity == t.entity && x.attribute == t.attribute && x.value in values && x.value != t.value
  {
    toLink, others := true, {};
    var i := 0;
    while i < |values|
      invariant 0 <= i <= |values|
      invariant toLink <==> t.value !in values[..i]
      invariant forall x :: x in others <==>
        x.entity == t.entity && x.attribute == t.attribute && x.value in values[..i] && x.value != t.value
    {
      assert values[..i + 1] == values[..i] + [values[i]];
      if values[i] == t.value {
        toLink := false;
      } else {
        others := others + {Triple(t.entity, t.attribute, values[i])};
      }
      i := i + 1;
    }
    assert values[..i] == values;
  }

  /** Without skipped symbols no triple is skipped on all its positions. */
  lemma NothingSkipped(mode: nat, t: Triple)
    requires IsIndexMode(mode)
    ensures !SkipsAll(mode, {}, t)
  {
    var none: set<Symbol> := {};
    assert 0 < IndexCount(mode) && t.Pos(0) !in none;
  }

  /** Moving x from W to A keeps their union. */
  lemma MoveOne<T>(W: set<T>, A: set<T>, x: T)
    requires x in W
    ensures (W - {x}) + (A + {x}) == W + A
  {
  }

  /** Taking x, which A lacks, out of W + A and adding H. */
  lemma DropOne<T>(W: set<T>, A: set<T>, x: T, H: set<T>)
    requires x !in A
    ensures (W + A) - {x} + H == (W - {x} + H) + A
  {
  }

  /** A non-empty set of symbols has a smallest element (begin). */
  lemma SmallestExists(S: set<Symbol>)
    requires S != {}
    ensures exists m :: m in S && forall y :: y in S ==> m <= y
  {
    var m := Smallest(S);
  }

  /** The smallest element of a non-empty set, by induction on its size. */
  lemma {:induction false} Smallest(S: set<Symbol>) returns (m: Symbol)
    requires S != {}
    ensures m in S && forall y :: y in S ==> m <= y
    decreases |S|
  {
    var x :| x in S;
    if S == {x} {
      m := x;
    } else {
      var rest := Smallest(S - {x});
      m := if x < rest then x else rest;
      forall y | y in S
        ensures m <= y
      {
        if y != x {
          assert y in S - {x};
        }
      }
    }
  }

  /** The Context: the top index from symbols to their SymbolObjects
      (sub-indices and blob), the next symbol create hands out, and the
      blob index from blob contents to symbols. */
  class Context {
    const indexMode: nat
    var nextSymbol: Symbol
    var topIndex: Table
    var blobs: map<Symbol, Blob>
    var blobIndex: map<Blob, Symbol>

    /** Only symbols with an entry have a blob; a SymbolObject missing
        from `blobs` has the empty blob of a new one. */
    ghost predicate Objects()
      reads this
    {
      blobs.Keys <= topIndex.Keys
    }

    ghost predicate Valid()
      reads this
    {
      IsIndexMode(indexMode) && Consistent(topIndex, indexMode) && Objects()
    }

    /** SymbolFactory: the entry of s, created empty if s has none. */
    method SymbolFactory(s: Symbol)
      requires WellFormed(topIndex) && Objects()
      modifies this
      ensures WellFormed(topIndex) && Objects()
      ensures Consistent(old(topIndex), indexMode) ==> Consistent(topIndex, indexMode)
      ensures topIndex == if s in old(topIndex) then old(topIndex) else old(topIndex)[s := EmptySubIndices()]
      ensures s !in old(topIndex) ==> BlobIn(blobs, s) == []
      ensures nextSymbol == old(nextSymbol) && blobs == old(blobs) && blobIndex == old(blobIndex)
    {
      if s !in topIndex {
        NewEntryConsistent(topIndex, indexMode, s);
        topIndex := topIndex[s := EmptySubIndices()];
      }
    }

    /** query: the dispatched search of Triple.hpp's query, except that an
        invalid mode and a search whose given alpha has no entry raise
        exceptions.  The MonoIndex callback here compacts searchVVV's working
        triple in place as Triple.hpp's does; the model delivers the
        corrected form, Compacted of each triple (see DeliverAsWritten). */
    method Query(mode: nat, t: Triple) returns (r: Outcome<nat>, results: seq<seq<Symbol>>, seen: seq<Triple>)
      requires WellFormed(topIndex)
      ensures !Answerable(mode) ==> r == Failure(InvalidMode) && results == [] && seen == []
      ensures Answerable(mode) && Unanchored(topIndex, indexMode, mode, t) ==>
        r == Failure(Nonexistent) && results == [] && seen == []
      ensures Answerable(mode) && !Unanchored(topIndex, indexMode, mode, t) ==>
        (var p := Dispatch(mode, indexMode).value;
         r == Success(|seen|) && NoDuplicates(seen) &&
         (forall x :: x in seen <==> Answer(topIndex, p.routine, p.subIndex, Reordered(t, p.subIndex), x)) &&
         results == Deliver(p, mode, seen))
    {
      if mode >= 27 || Lookup(mode).routine.None? {
        return Failure(InvalidMode), [], [];
      }
      var p := Dispatch(mode, indexMode).value;
      if FromAlpha(p.routine) && Reordered(t, p.subIndex).entity !in topIndex {
        return Failure(Nonexistent), [], [];
      }
      var count;
      count, results, seen := Triples.Query(topIndex, indexMode, mode, t);
      r := Success(count);
    }

    /** The values of (e, a, Void) by query mode 9, as unlink(alpha, beta),
        setSolitary and getUncertain run it. */
    method QueryValues(e: Symbol, a: Symbol) returns (r: Outcome<nat>, values: seq<Symbol>)
      requires WellFormed(topIndex)
      ensures e !in topIndex <==> r == Failure(Nonexistent)
      ensures e !in topIndex ==> values == []
      ensures e in topIndex ==> r == Success(|values|) && NoDuplicates(values)
      ensures forall g :: g in values <==> g in ValuesOf(topIndex, e, a)
    {
      var results, seen;
      r, results, seen := Query(9, Triple(e, a, Void));
      var p := Plan(EAV, 2, 1, GGV, false);
      assert Dispatch(9, indexMode) == Some(p);
      assert Reordered(Triple(e, a, Void), EAV) == Triple(e, a, Void);
      if e !in topIndex {
        values := [];
        return;
      }
      assert forall j :: 0 <= j < |seen| ==> results[j] == Delivered(p, 9, seen[j]);
      values := seq(|results|, (j: int) requires 0 <= j < |results| => results[j][0]);
      forall j | 0 <= j < |seen|
        ensures values[j] == seen[j].value && seen[j] == Triple(e, a, values[j])
      {
        assert seen[j] in seen;
      }
      forall g
        ensures g in values <==> Has(topIndex, EAV, Triple(e, a, g))
      {
        if g in values {
          var j :| 0 <= j < |values| && values[j] == g;
          assert seen[j] in seen;
        }
        if Has(topIndex, EAV, Triple(e, a, g)) {
          assert Triple(e, a, g) in seen;
          var j :| 0 <= j < |seen| && seen[j] == Triple(e, a, g);
          assert values[j] == g;
        }
      }
    }

    /** query mode 1 on (Void, Holds, s): the holders of s.  Outside
        MonoIndex the search starts from Holds and raises when Holds has
        no entry. */
    method HolderCount(s: Symbol) returns (r: Outcome<nat>)
      requires Valid()
      ensures r.Failure? <==> indexMode != MonoIndex && Holds !in topIndex
      ensures r.Failure? ==> r.message == Nonexistent
      ensures r.Success? ==> (r.value > 0 <==> Held(topIndex, indexMode, s))
    {
      var results, seen;
      r, results, seen := Query(1, Triple(Void, Holds, s));
      if indexMode == MonoIndex {
        assert Dispatch(1, indexMode) == Some(Plan(EAV, 2, 1, VVV, true));
        if Held(topIndex, indexMode, s) {
          var x :| Has(topIndex, EAV, x);
          assert x in seen;
        }
        if |seen| > 0 {
          assert seen[0] in seen;
        }
      } else {
        assert Dispatch(1, indexMode) == Some(Plan(AVE, 2, 1, GGV, false));
        assert Reordered(Triple(Void, Holds, s), AVE) == Triple(Holds, s, Void);
        if Holds !in topIndex {
          return;
        }
        if Held(topIndex, indexMode, s) {
          var h :| Has(topIndex, EAV, Triple(h, Holds, s));
          PresentEverywhere(topIndex, indexMode, Triple(h, Holds, s), AVE);
          assert Reordered(Triple(h, Holds, s), AVE) in seen;
        }
        if |seen| > 0 {
          var x := seen[0];
          assert x in seen;
          NormalizedReordered(x, AVE);
          PresentEverywhere(topIndex, indexMode, Normalized(x, AVE), AVE);
          assert Has(topIndex, EAV, Triple(x.value, Holds, s));
        }
      }
    }

    /** getUncertain: succeeds exactly when (alpha, beta) has one value;
        gamma receives the last value the search reported. */
    method GetUncertain(alpha: Symbol, beta: Symbol, gamma: Symbol) returns (r: Outcome<bool>, value: Symbol)
      requires WellFormed(topIndex)
      ensures alpha !in topIndex <==> r == Failure(Nonexistent)
      ensures alpha in topIndex ==> r == Success(|ValuesOf(topIndex, alpha, beta)| == 1)
      ensures r == Success(true) ==> ValuesOf(topIndex, alpha, beta) == {value}
      ensures ValuesOf(topIndex, alpha, beta) == {} ==> value == gamma
      ensures ValuesOf(topIndex, alpha, beta) != {} ==> value in ValuesOf(topIndex, alpha, beta)
    {
      var count, values := QueryValues(alpha, beta);
      value := if |values| > 0 then values[|values| - 1] else gamma;
      if ValuesOf(topIndex, alpha, beta) != {} {
        var g :| g in ValuesOf(topIndex, alpha, beta);
        assert g in values;
      }
      if count.Failure? {
        return Failure(count.message), value;
      }
      DistinctCount(values, ValuesOf(topIndex, alpha, beta));
      r := Success(count.value == 1);
    }

    /** getGuaranteed: the one value of (entity, attribute), or an
        exception when there is none or more than one. */
    method GetGuaranteed(entity: Symbol, attribute: Symbol) returns (r: Outcome<Symbol>)
      requires WellFormed(topIndex)
      ensures entity !in topIndex ==> r == Failure(Nonexistent)
      ensures entity in topIndex && |ValuesOf(topIndex, entity, attribute)| != 1 ==> r == Failure(Ambiguous)
      ensures r.Success? <==> entity in topIndex && |ValuesOf(topIndex, entity, attribute)| == 1
      ensures r.Success? ==> ValuesOf(topIndex, entity, attribute) == {r.value}
    {
      var found, value := GetUncertain(entity, attribute, Void);
      if found.Failure? {
        return Failure(found.message);
      }
      if !found.value {
        return Failure(Ambiguous);
      }
      r := Success(value);
    }

    /** unindexBlob: forgets the blob index entry that leads to s by the
        content of s's blob, if there is one. */
    method UnindexBlob(s: Symbol) returns (r: Outcome<bool>)
      requires Objects()
      modifies this
      ensures Objects() && topIndex == old(topIndex) && blobs == old(blobs) && nextSymbol == old(nextSymbol)
      ensures s !in topIndex ==> r == Failure(Nonexistent) && blobIndex == old(blobIndex)
      ensures s in topIndex ==> r == Success(BlobIn(blobs, s) in old(blobIndex) && old(blobIndex)[BlobIn(blobs, s)] == s)
      ensures s in topIndex ==> blobIndex == Unindexed(old(blobIndex), blobs, {s})
      ensures r == Success(true) ==> blobIndex == old(blobIndex) - {BlobIn(blobs, s)}
    {
      if s !in topIndex {
        return Failure(Nonexistent);
      }
      var content := BlobIn(blobs, s);
      if content !in blobIndex || blobIndex[content] != s {
        return Success(false);
      }
      blobIndex := blobIndex - {content};
      r := Success(true);
    }

    /** SymbolObject::link on the entry of t's k-th symbol: the forward
        pair goes into sub-index k and, in HexaIndex, the reverse pair into
        sub-index k + 3; the answer is whether the forward pair was new. */
    method LinkPairs(t: Triple, k: nat, ghost start: Table, ghost done: set<nat>) returns (linked: bool)
      requires IsIndexMode(indexMode) && Consistent(start, indexMode) && k < IndexCount(indexMode)
      requires AddedIn(start, topIndex, indexMode, t, done) && done == DoneBelow(indexMode, k)
      requires t.Pos(k) in topIndex
      modifies this
      ensures blobs == old(blobs) && nextSymbol == old(nextSymbol) && blobIndex == old(blobIndex)
      ensures topIndex.Keys == old(topIndex).Keys
      ensures linked <==> !Has(start, EAV, t)
      ensures linked ==> AddedIn(start, topIndex, indexMode, t, DoneBelow(indexMode, k + 1))
      ensures !linked ==> topIndex == old(topIndex)
    {
      IndexReordered(t, k);
      PresentEverywhere(start, indexMode, t, k);
      var forward := Reordered(t, k);
      AddedInStep(start, topIndex, indexMode, t, done, k);
      var sub := topIndex[forward.entity][k];
      linked := !(forward.attribute in sub && forward.value in sub[forward.attribute]);
      if !linked {
        return;
      }
      topIndex := Linked(topIndex, k, forward);
      if indexMode == HexaIndex {
        PresentEverywhere(start, indexMode, t, k + 3);
        AddedInStep(start, topIndex, indexMode, t, done + {k}, k + 3);
        topIndex := Linked(topIndex, k + 3, Reordered(t, k + 3));
        assert done + {k} + {k + 3} == DoneBelow(indexMode, k + 1);
      } else {
        assert done + {k} == DoneBelow(indexMode, k + 1);
      }
    }

    /** One round of link's loop: the entry of t's k-th symbol, created if
        missing, then LinkPairs.  Only round 0 can find t already there. */
    method LinkStep(t: Triple, k: nat, ghost start: Table) returns (linked: bool)
      requires Objects() && IsIndexMode(indexMode) && Consistent(start, indexMode) && k < IndexCount(indexMode)
      requires AddedIn(start, topIndex, indexMode, t, DoneBelow(indexMode, k))
      requires topIndex.Keys == start.Keys + Positions(t, k)
      requires k > 0 ==> !Has(start, EAV, t)
      requires k == 0 ==> topIndex == start
      modifies this
      ensures Objects() && blobs == old(blobs)
      ensures nextSymbol == old(nextSymbol) && blobIndex == old(blobIndex)
      ensures linked ==> !Has(start, EAV, t)
      ensures linked ==> AddedIn(start, topIndex, indexMode, t, DoneBelow(indexMode, k + 1))
      ensures linked ==> topIndex.Keys == start.Keys + Positions(t, k + 1)
      ensures !linked ==> k == 0 && Has(start, EAV, t) && topIndex == start
    {
      ghost var done := DoneBelow(indexMode, k);
      if t.Pos(k) !in topIndex {
        AddedInEntry(start, topIndex, indexMode, t, done, t.Pos(k));
        SymbolFactory(t.Pos(k));
      }
      assert topIndex.Keys == start.Keys + Positions(t, k + 1);
      linked := LinkPairs(t, k, start, done);
      if !linked {
        IndexReordered(t, 0);
        PresentEverywhere(start, indexMode, t, 0);
      }
    }

    /** link: adds t to every maintained orientation, creating the entries
        of its symbols.  A triple already present is refused, by false or
        by an exception, and nothing changes. */
    method Link(t: Triple, allowFailure: bool) returns (r: Outcome<bool>)
      requires Valid()
      modifies this
      ensures Valid() && blobs == old(blobs)
      ensures nextSymbol == old(nextSymbol) && blobIndex == old(blobIndex)
      ensures old(Has(topIndex, EAV, t)) ==>
        r == (if allowFailure then Success(false) else Failure(AlreadyLinked)) && topIndex == old(topIndex)
      ensures !old(Has(topIndex, EAV, t)) ==> r == Success(true)
      ensures !old(Has(topIndex, EAV, t)) ==> topIndex.Keys == old(topIndex).Keys + Positions(t, IndexCount(indexMode))
      ensures forall x :: Has(topIndex, EAV, x) <==> old(Has(topIndex, EAV, x)) || x == t
    {
      var count := IndexCount(indexMode);
      var k := 0;
      while k < count
        invariant 0 <= k <= count && Objects() && blobs == old(blobs)
        invariant nextSymbol == old(nextSymbol) && blobIndex == old(blobIndex)
        invariant AddedIn(old(topIndex), topIndex, indexMode, t, DoneBelow(indexMode, k))
        invariant topIndex.Keys == old(topIndex).Keys + Positions(t, k)
        invariant k == 0 ==> topIndex == old(topIndex)
        invariant k > 0 ==> !Has(old(topIndex), EAV, t)
      {
        var linked := LinkStep(t, k, old(topIndex));
        if !linked {
          return if allowFailure then Success(false) else Failure(AlreadyLinked);
        }
        k := k + 1;
      }
      LinkFinished(old(topIndex), topIndex, indexMode, t);
      return Success(true);
    }

    /** create: hands out nextSymbol, gives it an entry and links it to
        each (attribute, value) pair.  A pair already linked (possible only
        when the symbol had an entry already) raises, leaving the links
        made before it. */
    method Create(links: set<(Symbol, Symbol)>) returns (r: Outcome<Symbol>)
      requires Valid()
      modifies this
      ensures Valid() && blobs == old(blobs) && blobIndex == old(blobIndex)
      ensures nextSymbol == old(nextSymbol) + 1 && old(nextSymbol) in topIndex
      ensures r.Success? ==> r.value == old(nextSymbol)
      ensures r.Failure? ==> r.message == AlreadyLinked
      ensures (forall x :: x in LinksOf(old(nextSymbol), links) ==> !old(Has(topIndex, EAV, x))) ==> r.Success?
      ensures r.Success? ==> forall x :: Has(topIndex, EAV, x) <==>
        old(Has(topIndex, EAV, x)) || x in LinksOf(old(nextSymbol), links)
      ensures r.Failure? ==> forall x :: Has(topIndex, EAV, x) ==>
        old(Has(topIndex, EAV, x)) || x in LinksOf(old(nextSymbol), links)
    {
      var symbol := nextSymbol;
      nextSymbol := nextSymbol + 1;
      SymbolFactory(symbol);
      var linked := LinkEach(symbol, links);
      if linked.Failure? {
        return Failure(linked.message);
      }
      return Success(symbol);
    }

    /** create's loop: link of each pair with the new symbol. */
    method LinkEach(symbol: Symbol, links: set<(Symbol, Symbol)>) returns (r: Outcome<bool>)
      requires Valid() && symbol in topIndex
      modifies this
      ensures Valid() && blobs == old(blobs) && blobIndex == old(blobIndex)
      ensures nextSymbol == old(nextSymbol) && symbol in topIndex
      ensures r.Failure? ==> r.message == AlreadyLinked
      ensures (forall x :: x in LinksOf(symbol, links) ==> !old(Has(topIndex, EAV, x))) ==> r.Success?
      ensures r.Success? ==> forall x :: Has(topIndex, EAV, x) <==> old(Has(topIndex, EAV, x)) || x in LinksOf(symbol, links)
      ensures r.Failure? ==> forall x :: Has(topIndex, EAV, x) ==> old(Has(topIndex, EAV, x)) || x in LinksOf(symbol, links)
    {
      var rest := links;
      ghost var done: set<(Symbol, Symbol)> := {};
      while rest != {}
        invariant Valid() && blobs == old(blobs) && blobIndex == old(blobIndex)
        invariant nextSymbol == old(nextSymbol) && symbol in topIndex
        invariant rest + done == links && rest !! done
        invariant forall x :: Has(topIndex, EAV, x) <==> old(Has(topIndex, EAV, x)) || x in LinksOf(symbol, done)
        decreases |rest|
      {
        var l :| l in rest;
        var t := Triple(symbol, l.0, l.1);
        LinksOfStep(symbol, done, rest, l);
        var linked := Link(t, false);
        if linked.Failure? {
          return linked;
        }
        rest := rest - {l};
        done := done + {l};
      }
      return Success(true);
    }

    /** SymbolObject::unlink on the entry of y's k-th symbol: the forward
        pair leaves sub-index k and, in HexaIndex, the reverse pair leaves
        sub-index k + 3; the answer is whether the forward pair was there. */
    method UnlinkPairs(y: Triple, k: nat, ghost skip: set<Symbol>, ghost start: Table, ghost done: set<Triple>) returns (found: bool)
      requires IsIndexMode(indexMode) && Consistent(start, indexMode) && k < IndexCount(indexMode)
      requires Cleared(start, topIndex, indexMode, skip, done, y, k, false) && y !in done && y.Pos(k) !in skip
      requires y.Pos(k) in topIndex
      modifies this
      ensures blobs == old(blobs) && nextSymbol == old(nextSymbol) && blobIndex == old(blobIndex)
      ensures found <==> Has(start, EAV, y)
      ensures found ==> Cleared(start, topIndex, indexMode, skip, done, y, k + 1, false)
      ensures !found ==> topIndex == old(topIndex)
    {
      ClearedFinds(start, topIndex, indexMode, skip, done, y, k);
      var forward := Reordered(y, k);
      var sub := topIndex[forward.entity][k];
      found := forward.attribute in sub && forward.value in sub[forward.attribute];
      if !found {
        return;
      }
      ClearedForward(start, topIndex, indexMode, skip, done, y, k);
      topIndex := Unlinked(topIndex, k, forward);
      if indexMode == HexaIndex {
        AlphaOf(y, k + 3);
        ClearedInverse(start, topIndex, indexMode, skip, done, y, k);
        topIndex := Unlinked(topIndex, k + 3, Reordered(y, k + 3));
      } else {
        ClearedRoundEnd(start, topIndex, indexMode, skip, done, y, k);
      }
    }

    /** The rounds of unlink's loop for one triple y: each maintained
        position not in `skip` must have an entry whose SymbolObject::unlink
        succeeds.  Only the first such round can fail, before any change. */
    method UnlinkRounds(y: Triple, skip: set<Symbol>, ghost start: Table, ghost done: set<Triple>) returns (found: bool)
      requires IsIndexMode(indexMode) && Consistent(start, indexMode)
      requires Cleared(start, topIndex, indexMode, skip, done, y, 0, false) && y !in done
      modifies this
      ensures blobs == old(blobs) && nextSymbol == old(nextSymbol) && blobIndex == old(blobIndex)
      ensures found <==> Has(start, EAV, y) || SkipsAll(indexMode, skip, y)
      ensures found ==> Cleared(start, topIndex, indexMode, skip, done + {y}, y, 0, false)
      ensures !found ==> topIndex == old(topIndex)
    {
      var count := IndexCount(indexMode);
      var i := 0;
      while i < count
        invariant 0 <= i <= count
        invariant blobs == old(blobs) && nextSymbol == old(nextSymbol) && blobIndex == old(blobIndex)
        invariant Cleared(start, topIndex, indexMode, skip, done, y, i, false)
        invariant Has(start, EAV, y) || (topIndex == old(topIndex) && forall j :: 0 <= j < i ==> y.Pos(j) in skip)
      {
        if y.Pos(i) in skip {
          ClearedSkipped(start, topIndex, indexMode, skip, done, y, i);
        } else {
          ClearedFinds(start, topIndex, indexMode, skip, done, y, i);
          if y.Pos(i) !in topIndex {
            return false;
          }
          found := UnlinkPairs(y, i, skip, start, done);
          if !found {
            return;
          }
        }
        i := i + 1;
      }
      ClearedCommit(start, topIndex, indexMode, skip, done, y, y);
      found := true;
    }

    /** unlink of a set of triples: each leaves every maintained
        orientation, except on the positions of the symbols of `skip`;
        then the dirty entries left unused go, and the entries of the
        skipped symbols.  A triple that is not there and is not skipped on
        all its positions stops it, by false or by an exception, with the
        triples before it already unlinked and nothing erased. */
    method Unlink(triples: set<Triple>, allowFailure: bool, skip: set<Symbol>) returns (r: Outcome<bool>)
      requires Valid() && SkipIndexed(topIndex, indexMode, skip, triples)
      modifies this
      ensures nextSymbol == old(nextSymbol) && Objects()
      ensures forall s :: s in blobs <==> s in old(blobs) && s in topIndex
      ensures forall s :: s in blobs ==> blobs[s] == old(blobs)[s]
      ensures r != Success(true) <==> Missing(old(topIndex), indexMode, skip, triples)
      ensures r != Success(true) ==> r == if allowFailure then Success(false) else Failure(AlreadyUnlinked)
      ensures r == Success(true) ==> forall d :: d in topIndex <==>
        d in old(topIndex) && d !in skip && !(Touched(indexMode, triples, d) && Emptied(old(topIndex), indexMode, triples, d))
      ensures r == Success(true) ==> forall o: nat, x :: Has(topIndex, o, x) <==>
        x.entity in topIndex && Has(old(topIndex), o, x) && !Gone(indexMode, skip, triples, o, x)
      ensures r == Success(true) ==> forall x :: Has(topIndex, EAV, x) <==>
        Has(old(topIndex), EAV, x) && x !in triples && x.entity !in skip
      ensures r == Success(true) && Covered(old(topIndex), indexMode, skip, triples) ==> Valid()
      ensures r == Success(true) ==> blobIndex == Unindexed(old(blobIndex), old(blobs), BlobEntities(triples))
      ensures r != Success(true) ==> topIndex.Keys == old(topIndex).Keys
      ensures r != Success(true) ==> forall o: nat, x :: Has(topIndex, o, x) ==> Has(old(topIndex), o, x)
      ensures r != Success(true) ==> forall o: nat, x ::
        Has(old(topIndex), o, x) && !Has(topIndex, o, x) ==> Normalized(x, o) in triples
      ensures r != Success(true) && skip == {} ==> Valid()
      ensures r != Success(true) ==> forall c :: c in blobIndex ==> c in old(blobIndex) && blobIndex[c] == old(blobIndex)[c]
    {
      ghost var start := topIndex;
      ghost var idle := Triple(Void, Void, Void);
      var found, dirty, done := UnlinkAll(triples, skip);
      if !found {
        if skip == {} {
          ClearedConsistent(start, topIndex, indexMode, done, idle);
        }
        return if allowFailure then Success(false) else Failure(AlreadyUnlinked);
      }
      ghost var mid := topIndex;
      topIndex, blobs := Unreferenced(topIndex, blobs, indexMode, dirty);
      EraseSkipped(skip);
      ErasedKeys(start, mid, indexMode, skip, triples, idle, dirty);
      ErasedHas(start, mid, indexMode, skip, triples, idle, dirty);
      if Covered(start, indexMode, skip, triples) {
        ErasedConsistent(start, mid, indexMode, skip, triples, idle, dirty);
      }
      r := Success(true);
    }

    /** unlink's first loop: the rounds of every triple, noting the dirty
        symbols and unindexing the blob of each BlobType triple's entity.
        It stops at the first triple that is not there. */
    method UnlinkAll(triples: set<Triple>, skip: set<Symbol>) returns (found: bool, dirty: set<Symbol>, ghost done: set<Triple>)
      requires Valid() && SkipIndexed(topIndex, indexMode, skip, triples)
      modifies this
      ensures nextSymbol == old(nextSymbol) && blobs == old(blobs) && topIndex.Keys == old(topIndex).Keys
      ensures done <= triples && (found ==> done == triples)
      ensures found <==> !Missing(old(topIndex), indexMode, skip, triples)
      ensures Cleared(old(topIndex), topIndex, indexMode, skip, done, Triple(Void, Void, Void), 0, false)
      ensures blobIndex == Unindexed(old(blobIndex), blobs, BlobEntities(done))
      ensures forall d :: d in dirty <==> Touched(indexMode, done, d)
      ensures dirty <= topIndex.Keys
    {
      ghost var start := topIndex;
      ghost var idle := Triple(Void, Void, Void);
      var rest := triples;
      done := {};
      dirty := {};
      assert Cleared(start, topIndex, indexMode, skip, done, idle, 0, false);
      while rest != {}
        invariant rest + done == triples && rest !! done
        invariant nextSymbol == old(nextSymbol) && blobs == old(blobs) && topIndex.Keys == start.Keys
        invariant Cleared(start, topIndex, indexMode, skip, done, idle, 0, false)
        invariant forall d :: d in dirty <==> Touched(indexMode, done, d)
        invariant dirty <= start.Keys
        invariant forall y :: y in done ==> Has(start, EAV, y) || SkipsAll(indexMode, skip, y)
        invariant blobIndex == Unindexed(old(blobIndex), blobs, BlobEntities(done))
        decreases |rest|
      {
        var y :| y in rest;
        var ok;
        ok, dirty := UnlinkNext(y, triples, skip, dirty, start, done, old(blobIndex));
        if !ok {
          return false, dirty, done;
        }
        done := done + {y};
        rest := rest - {y};
      }
      found := true;
    }

    /** One pass of unlink's first loop: the rounds of y, the dirty
        symbols it adds and the unindexBlob of a BlobType triple. */
    method UnlinkNext(y: Triple, triples: set<Triple>, skip: set<Symbol>, dirty: set<Symbol>,
                      ghost start: Table, ghost done: set<Triple>, ghost base: map<Blob, Symbol>)
      returns (ok: bool, dirtier: set<Symbol>)
      requires IsIndexMode(indexMode) && Consistent(start, indexMode) && SkipIndexed(start, indexMode, skip, triples)
      requires y in triples && y !in done && topIndex.Keys == start.Keys && Objects()
      requires Cleared(start, topIndex, indexMode, skip, done, Triple(Void, Void, Void), 0, false)
      requires forall d :: d in dirty <==> Touched(indexMode, done, d)
      requires blobIndex == Unindexed(base, blobs, BlobEntities(done))
      modifies this
      ensures nextSymbol == old(nextSymbol) && blobs == old(blobs) && topIndex.Keys == start.Keys
      ensures ok <==> Has(start, EAV, y) || SkipsAll(indexMode, skip, y)
      ensures !ok ==> topIndex == old(topIndex) && blobIndex == old(blobIndex) && dirtier == dirty
      ensures ok ==> Cleared(start, topIndex, indexMode, skip, done + {y}, Triple(Void, Void, Void), 0, false)
      ensures ok ==> forall d :: d in dirtier <==> Touched(indexMode, done + {y}, d)
      ensures ok ==> dirtier == dirty + Positions(y, IndexCount(indexMode)) && Positions(y, IndexCount(indexMode)) <= start.Keys
      ensures ok ==> blobIndex == Unindexed(base, blobs, BlobEntities(done + {y}))
    {
      ghost var idle := Triple(Void, Void, Void);
      ClearedAny(start, topIndex, indexMode, skip, done, idle, y);
      ok := UnlinkRounds(y, skip, start, done);
      dirtier := dirty;
      if !ok {
        return;
      }
      ClearedAny(start, topIndex, indexMode, skip, done + {y}, y, idle);
      FoundIndexed(start, indexMode, skip, triples, y);
      forall d
        ensures Touched(indexMode, done + {y}, d) <==> Touched(indexMode, done, d) || d in Positions(y, IndexCount(indexMode))
      {
        TouchedStep(indexMode, done, y, d);
      }
      dirtier := dirty + Positions(y, IndexCount(indexMode));
      assert y.entity in topIndex by {
        assert y.Pos(0) == y.entity;
        assert y.entity in Positions(y, IndexCount(indexMode));
      }
      UnindexEntity(y, base, done);
    }

    /** unlink's unindexBlob of the entity of a BlobType triple. */
    method UnindexEntity(y: Triple, ghost base: map<Blob, Symbol>, ghost done: set<Triple>)
      requires Objects() && y.entity in topIndex && blobIndex == Unindexed(base, blobs, BlobEntities(done))
      modifies this
      ensures topIndex == old(topIndex) && blobs == old(blobs) && nextSymbol == old(nextSymbol)
      ensures blobIndex == Unindexed(base, blobs, BlobEntities(done + {y}))
    {
      BlobEntitiesStep(done, y);
      if y.attribute == BlobType {
        UnindexedTwice(base, blobs, BlobEntities(done), y.entity);
        var _ := UnindexBlob(y.entity);
      }
    }

    /** unlink's last loop: the entries of the skipped symbols go. */
    method EraseSkipped(skip: set<Symbol>)
      modifies this
      ensures topIndex == old(topIndex) - skip && blobs == old(blobs) - skip
      ensures nextSymbol == old(nextSymbol) && blobIndex == old(blobIndex)
    {
      var rest := skip;
      while rest != {}
        invariant rest <= skip
        invariant topIndex == old(topIndex) - (skip - rest) && blobs == old(blobs) - (skip - rest)
        invariant nextSymbol == old(nextSymbol) && blobIndex == old(blobIndex)
        decreases |rest|
      {
        var alpha :| alpha in rest;
        topIndex := topIndex - {alpha};
        blobs := blobs - {alpha};
        rest := rest - {alpha};
      }
    }

    /** unlink of a pair: every triple with entity alpha and attribute
        beta, found by the query for their values; alpha must have an
        entry. */
    method UnlinkPair(alpha: Symbol, beta: Symbol, allowFailure: bool) returns (r: Outcome<bool>)
      requires Valid()
      modifies this
      ensures Valid() && nextSymbol == old(nextSymbol)
      ensures alpha !in old(topIndex) ==> r == Failure(Nonexistent) && topIndex == old(topIndex)
      ensures alpha !in old(topIndex) ==> blobs == old(blobs) && blobIndex == old(blobIndex)
      ensures alpha in old(topIndex) ==> r == Success(true)
      ensures forall x :: Has(topIndex, EAV, x) <==> Has(old(topIndex), EAV, x) && !(x.entity == alpha && x.attribute == beta)
      ensures forall d :: d in topIndex <==> (d in old(topIndex) &&
        !(Touched(indexMode, PairTriples(old(topIndex), alpha, beta), d) && Emptied(old(topIndex), indexMode, PairTriples(old(topIndex), alpha, beta), d)))
      ensures blobIndex == Unindexed(old(blobIndex), old(blobs), BlobEntities(PairTriples(old(topIndex), alpha, beta)))
    {
      var found, values := QueryValues(alpha, beta);
      if found.Failure? {
        UnindexedNothing(blobIndex, blobs);
        return Failure(found.message);
      }
      var triples := set g | g in values :: Triple(alpha, beta, g);
      assert triples == PairTriples(topIndex, alpha, beta);
      if triples == {} {
        UnindexedNothing(blobIndex, blobs);
        return Success(true);
      }
      assert !Missing(topIndex, indexMode, {}, triples);
      assert Covered(topIndex, indexMode, {}, triples);
      r := Unlink(triples, allowFailure, {});
    }

    /** unlink of one triple. */
    method UnlinkTriple(t: Triple, allowFailure: bool) returns (r: Outcome<bool>)
      requires Valid()
      modifies this
      ensures Valid() && nextSymbol == old(nextSymbol)
      ensures Has(old(topIndex), EAV, t) ==> r == Success(true)
      ensures !Has(old(topIndex), EAV, t) ==> r == if allowFailure then Success(false) else Failure(AlreadyUnlinked)
      ensures !Has(old(topIndex), EAV, t) ==> topIndex.Keys == old(topIndex).Keys && blobs == old(blobs)
      ensures forall x :: Has(topIndex, EAV, x) <==> Has(old(topIndex), EAV, x) && x != t
      ensures Has(old(topIndex), EAV, t) ==> forall d :: d in topIndex <==>
        d in old(topIndex) && !(Involves(indexMode, t, d) && Emptied(old(topIndex), indexMode, {t}, d))
      ensures Has(old(topIndex), EAV, t) ==> blobIndex == Unindexed(old(blobIndex), old(blobs), BlobEntities({t}))
    {
      assert Covered(topIndex, indexMode, {}, {t});
      NothingSkipped(indexMode, t);
      assert Missing(topIndex, indexMode, {}, {t}) <==> !Has(topIndex, EAV, t);
      r := Unlink({t}, allowFailure, {});
      if r != Success(true) {
        forall x | Has(old(topIndex), EAV, x) && x != t
          ensures Has(topIndex, EAV, x)
        {
          NormalizedReordered(x, EAV);
        }
      }
      forall d
        ensures Touched(indexMode, {t}, d) <==> Involves(indexMode, t, d)
      {
        if Involves(indexMode, t, d) {
          assert t in {t};
        }
      }
    }

    /** destroy: unlinks every triple involving alpha, skipping alpha's own
        entry, which then goes with the entries left unused. */
    method Destroy(alpha: Symbol, allowFailure: bool) returns (r: Outcome<bool>)
      requires Valid()
      modifies this
      ensures Valid() && nextSymbol == old(nextSymbol)
      ensures alpha !in old(topIndex) ==> r == (if allowFailure then Success(false) else Failure(AlreadyDestroyed))
      ensures alpha !in old(topIndex) ==> topIndex == old(topIndex) && blobs == old(blobs) && blobIndex == old(blobIndex)
      ensures alpha in old(topIndex) ==> r == Success(true) && alpha !in topIndex
      ensures alpha in old(topIndex) ==> forall x :: Has(topIndex, EAV, x) <==>
        Has(old(topIndex), EAV, x) && !Involves(indexMode, x, alpha)
      ensures alpha in old(topIndex) ==> forall d :: d in topIndex <==> (d in old(topIndex) && d != alpha &&
        !(Touched(indexMode, Involving(old(topIndex), indexMode, alpha), d) &&
          Emptied(old(topIndex), indexMode, Involving(old(topIndex), indexMode, alpha), d)))
      ensures alpha in old(topIndex) ==>
        blobIndex == Unindexed(old(blobIndex), old(blobs), BlobEntities(Involving(old(topIndex), indexMode, alpha)))
      ensures forall s :: s in blobs ==> s in old(blobs) && blobs[s] == old(blobs)[s]
    {
      if alpha !in topIndex {
        return if allowFailure then Success(false) else Failure(AlreadyDestroyed);
      }
      var triples := CollectInvolving(topIndex, indexMode, alpha);
      assert SkipIndexed(topIndex, indexMode, {alpha}, triples);
      assert Covered(topIndex, indexMode, {alpha}, triples);
      assert !Missing(topIndex, indexMode, {alpha}, triples);
      var done := Unlink(triples, false, {alpha});
      forall x | Has(old(topIndex), EAV, x) && x.entity == alpha
        ensures Involves(indexMode, x, alpha)
      {
      }
      return Success(true);
    }

    /** setSolitary: t becomes the only triple with its entity and
        attribute; t is linked unless already there and the others are
        unlinked.  The entity must have an entry. */
    method SetSolitary(t: Triple) returns (r: Outcome<()>)
      requires Valid()
      modifies this
      ensures Valid() && nextSymbol == old(nextSymbol)
      ensures t.entity !in old(topIndex) ==> r == Failure(Nonexistent) && topIndex == old(topIndex)
      ensures t.entity !in old(topIndex) ==> blobs == old(blobs) && blobIndex == old(blobIndex)
      ensures t.entity in old(topIndex) ==> r == Success(())
      ensures t.entity in old(topIndex) ==> forall x :: Has(topIndex, EAV, x) <==>
        x == t || (Has(old(topIndex), EAV, x) && !(x.entity == t.entity && x.attribute == t.attribute))
      ensures topIndex.Keys <= old(topIndex).Keys + Positions(t, IndexCount(indexMode))
      ensures forall s :: s in blobs ==> s in old(blobs) && blobs[s] == old(blobs)[s]
      ensures t.entity in old(topIndex) ==>
        blobIndex == Unindexed(old(blobIndex), old(blobs), BlobEntities(PairTriples(old(topIndex), t.entity, t.attribute) - {t}))
    {
      var found, values := QueryValues(t.entity, t.attribute);
      if found.Failure? {
        return Failure(found.message);
      }
      var toLink, others := SplitValues(t, values);
      assert others == PairTriples(topIndex, t.entity, t.attribute) - {t};
      if toLink {
        var linked := Link(t, false);
      }
      if others != {} {
        assert !Missing(topIndex, indexMode, {}, others);
        assert Covered(topIndex, indexMode, {}, others);
        var done := Unlink(others, false, {});
      } else {
        UnindexedNothing(blobIndex, blobs);
      }
      return Success(());
    }

    /** scrutinizeExistence: starting from s, every symbol popped (the
        smallest first) that has an entry and no holder is destroyed, and
        the symbols it held are queued in turn.  A symbol without an entry
        is passed over; the holder query raises when Holds itself has no
        entry outside MonoIndex. */
    method ScrutinizeExistence(s: Symbol) returns (r: Outcome<()>, ghost unlinked: set<Symbol>, ghost absent: set<Symbol>)
      requires Valid()
      modifies this
      ensures Valid() && nextSymbol == old(nextSymbol) && topIndex.Keys <= old(topIndex).Keys
      ensures r.Failure? ==> r.message == Nonexistent && indexMode != MonoIndex
      ensures r.Success? ==> Scrutiny(old(topIndex), topIndex, indexMode, s, unlinked, absent)
      ensures UnlinkedUnheld(old(topIndex), indexMode, unlinked)
      ensures forall a :: a in absent ==> a !in topIndex
      ensures s !in old(topIndex) ==> r == Success(()) && topIndex == old(topIndex) && unlinked == {}
      ensures s in old(topIndex) && (indexMode == MonoIndex || Holds in old(topIndex)) && Held(old(topIndex), indexMode, s) ==>
        r == Success(()) && topIndex == old(topIndex) && unlinked == {}
      ensures r.Success? && s in old(topIndex) && !Held(old(topIndex), indexMode, s) ==> s in unlinked
    {
      ghost var start := topIndex;
      ghost var first := true;
      unlinked, absent := {}, {};
      var worklist: set<Symbol> := {s};
      while worklist != {}
        invariant Valid() && nextSymbol == old(nextSymbol) && topIndex.Keys <= start.Keys
        invariant Scrutiny(start, topIndex, indexMode, s, unlinked, worklist + absent)
        invariant forall a :: a in absent ==> a !in topIndex
        invariant first ==> worklist == {s} && unlinked == {} && absent == {} && topIndex == start
        invariant !first && s !in start ==> worklist == {} && unlinked == {} && topIndex == start
        invariant !first && s in start && (indexMode == MonoIndex || Holds in start) && Held(start, indexMode, s) ==>
          worklist == {} && unlinked == {} && topIndex == start
        invariant !first && s in start && !Held(start, indexMode, s) ==> s in unlinked
        decreases |Stored(topIndex)|, |worklist|
      {
        var sym;
        assert UnlinkedUnheld(start, indexMode, unlinked);
        r, sym, worklist, unlinked, absent := ScrutinizeNext(s, start, unlinked, worklist, absent);
        if r.Failure? {
          return;
        }
        first := false;
      }
      r := Success(());
    }

    /** One symbol popped by scrutinizeExistence, the smallest of the
        worklist: passed over without an entry or with a holder, destroyed
        otherwise. */
    method ScrutinizeNext(s: Symbol, ghost start: Table, ghost U: set<Symbol>, W: set<Symbol>, ghost absent: set<Symbol>)
      returns (r: Outcome<()>, sym: Symbol, W': set<Symbol>, ghost U': set<Symbol>, ghost absent': set<Symbol>)
      requires Valid() && W != {} && Scrutiny(start, topIndex, indexMode, s, U, W + absent)
      requires forall a :: a in absent ==> a !in topIndex
      modifies this
      ensures sym in W && forall y :: y in W ==> sym <= y
      ensures Valid() && nextSymbol == old(nextSymbol) && topIndex.Keys <= old(topIndex).Keys
      ensures r.Failure? ==> r.message == Nonexistent && indexMode != MonoIndex && U' == U
      ensures r.Success? ==> Scrutiny(start, topIndex, indexMode, s, U', W' + absent')
      ensures forall a :: a in absent' ==> a !in topIndex
      ensures sym !in old(topIndex) ==> r.Success? && W' == W - {sym} && U' == U && topIndex == old(topIndex)
      ensures sym in old(topIndex) && (indexMode == MonoIndex || Holds in old(topIndex)) ==> r.Success?
      ensures sym in old(topIndex) && r.Success? && Held(old(topIndex), indexMode, sym) ==>
        W' == W - {sym} && U' == U && topIndex == old(topIndex)
      ensures sym in old(topIndex) && r.Success? && !Held(old(topIndex), indexMode, sym) ==> U' == U + {sym}
      ensures |Stored(topIndex)| <= |Stored(old(topIndex))|
      ensures |Stored(topIndex)| == |Stored(old(topIndex))| ==> W' == W - {sym}
    {
      SmallestExists(W);
      sym :| sym in W && forall y :: y in W ==> sym <= y;
      r, W', U', absent' := Success(()), W - {sym}, U, absent;
      if sym !in topIndex {
        MoveOne(W, absent, sym);
        absent' := absent + {sym};
        return;
      }
      var holders := HolderCount(sym);
      if holders.Failure? {
        return Failure(holders.message), sym, W - {sym}, U, absent;
      }
      if holders.value > 0 {
        ScrutinySkip(start, topIndex, indexMode, s, U, W + absent, sym);
        DropOne(W, absent, sym, {});
      } else {
        W' := ScrutinizeStep(s, sym, start, U, W, absent);
        U' := U + {sym};
      }
    }

    /** One symbol destroyed by scrutinizeExistence: the symbols it holds
        are queued, then destroy. */
    method ScrutinizeStep(s: Symbol, sym: Symbol, ghost start: Table, ghost U: set<Symbol>, W: set<Symbol>, ghost absent: set<Symbol>)
      returns (W': set<Symbol>)
      requires Valid() && sym in W && sym in topIndex && !Held(topIndex, indexMode, sym)
      requires Scrutiny(start, topIndex, indexMode, s, U, W + absent)
      requires forall a :: a in absent ==> a !in topIndex
      modifies this
      ensures Valid() && nextSymbol == old(nextSymbol) && topIndex.Keys <= old(topIndex).Keys
      ensures Scrutiny(start, topIndex, indexMode, s, U + {sym}, W' + absent)
      ensures |Stored(topIndex)| <= |Stored(old(topIndex))|
      ensures |Stored(topIndex)| == |Stored(old(topIndex))| ==> W' == W - {sym}
    {
      ghost var table := topIndex;
      var found, children := QueryValues(sym, Holds);
      ghost var held := ValuesOf(table, sym, Holds);
      W' := W - {sym} + (set c | c in children);
      assert W' == W - {sym} + held;
      var destroyed := Destroy(sym, false);
      ScrutinyUnlink(start, table, topIndex, indexMode, s, U, W + absent, sym, held);
      DropOne(W, absent, sym, held);
      StoredShrinks(table, topIndex, indexMode, sym, held);
    }
  }
}
