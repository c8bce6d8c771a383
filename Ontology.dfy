/** The triple index of Ontology/Triple.hpp: the global `symbols` set maps
    every symbol that ever took part in a triple to its sub-indices, and
    `indexMode` says how many orientations are maintained.

    Freeing a symbol's storage (Storage::releaseSymbol) is recorded in
    `released`. */
module Ontology {
  import opened Triples

  /** The number of forward orientations maintained (forEachSubIndex). */
  function IndexCount(indexMode: nat): (n: nat)
    ensures indexMode == MonoIndex ==> n == 1
    ensures indexMode != MonoIndex ==> n == 3
  {
    if indexMode == MonoIndex then 1 else 3
  }

  /** The orientations link has written once the forward sub-indices
      below k are done: those, and in HexaIndex their inverses. */
  ghost function DoneBelow(indexMode: nat, k: nat): (done: set<nat>)
    requires k <= 3
    ensures forall o: nat :: o in done <==> o < k || (indexMode == HexaIndex && 3 <= o < 3 + k)
    decreases k
  {
    if k == 0 then {}
    else DoneBelow(indexMode, k - 1) + {k - 1} + (if indexMode == HexaIndex then {k + 2} else {})
  }

  /** The table is `start` with t added to the orientations in `done`;
      orientations the mode does not maintain stay empty. */
  ghost predicate AddedIn(start: Table, table: Table, mode: nat, t: Triple, done: set<nat>)
  {
    && WellFormed(table)
    && (forall a, o :: a in table && mode <= o < 6 ==> table[a][o] == map[])
    && (forall o, x :: Has(table, o, x) <==> Has(start, o, x) || (o in done && o < 6 && x == Reordered(t, o)))
  }

  /** The symbols of t's first k positions, whose entries link creates. */
  function Positions(t: Triple, k: nat): (ps: set<Symbol>)
    requires k <= 3
    ensures k == 1 ==> ps == {t.entity}
    ensures k == 3 ==> ps == {t.entity, t.attribute, t.value}
    decreases k
  {
    if k == 0 then {} else Positions(t, k - 1) + {t.Pos(k - 1)}
  }

  /** Adding the rotation of t to one more maintained orientation. */
  lemma AddedInStep(start: Table, table: Table, mode: nat, t: Triple, done: set<nat>, o: nat)
    requires AddedIn(start, table, mode, t, done) && o < mode && o < 6
    requires Reordered(t, o).entity in table
    ensures AddedIn(start, Linked(table, o, Reordered(t, o)), mode, t, done + {o})
    ensures !Has(table, o, Reordered(t, o)) <==> !Has(start, o, Reordered(t, o)) && o !in done
  {
    HasLinked(table, o, Reordered(t, o));
    LinkedWellFormed(table, o, Reordered(t, o));
  }

  /** A new, empty entry changes nothing link has recorded. */
  lemma AddedInEntry(start: Table, table: Table, mode: nat, t: Triple, done: set<nat>, a: Symbol)
    requires AddedIn(start, table, mode, t, done) && a !in table
    ensures AddedIn(start, table[a := EmptySubIndices()], mode, t, done)
  {
    NewEntry(table, a);
  }

  /** Once every maintained orientation is done the index is consistent
      again and holds t besides what it held. */
  lemma LinkFinished(start: Table, table: Table, mode: nat, t: Triple)
    requires IsIndexMode(mode) && Consistent(start, mode)
    requires AddedIn(start, table, mode, t, DoneBelow(mode, IndexCount(mode)))
    ensures Consistent(table, mode)
    ensures forall x :: Has(table, EAV, x) <==> Has(start, EAV, x) || x == t
  {
    NormalizedReordered(t, 0);
    forall o | 0 < o < mode
      ensures Mirrors(table, o)
    {
      MirrorsAdded(start, table, o, t);
    }
  }

  /** Orientation o is one that unlinkWithoutReleasing touches: the mode
      maintains it and its alpha is not the skipped symbol. */
  ghost predicate Target(mode: nat, skipEnabled: bool, skip: Symbol, t: Triple, o: nat)
  {
    o < mode && o < 6 && !(skipEnabled && t.Pos(AlphaPos(o)) == skip)
  }

  /** The same, among the orientations of the rounds below k. */
  ghost predicate TargetBelow(mode: nat, skipEnabled: bool, skip: Symbol, t: Triple, o: nat, k: nat)
  {
    o < 6 && (o < k || (mode == HexaIndex && 3 <= o < 3 + k)) && !(skipEnabled && t.Pos(AlphaPos(o)) == skip)
  }

  /** Every touched orientation holds its rotation of t. */
  ghost predicate PresentAll(table: Table, mode: nat, skipEnabled: bool, skip: Symbol, t: Triple)
  {
    forall o :: Target(mode, skipEnabled, skip, t, o) ==> Has(table, o, Reordered(t, o))
  }

  /** No touched orientation holds its rotation of t. */
  ghost predicate AbsentAll(table: Table, mode: nat, skipEnabled: bool, skip: Symbol, t: Triple)
  {
    forall o :: Target(mode, skipEnabled, skip, t, o) ==> !Has(table, o, Reordered(t, o))
  }

  /** Orientations the mode does not maintain hold nothing. */
  ghost predicate InactiveEmpty(table: Table, mode: nat)
  {
    forall a, o :: a in table && mode <= o < 6 && o < |table[a]| ==> table[a][o] == map[]
  }

  /** unlinkInSubIndex, doing nothing when alpha has no entry. */
  function Dropped(table: Table, o: nat, r: Triple): Table
  {
    if r.entity in table && o < |table[r.entity]| then Unlinked(table, o, r) else table
  }

  /** Dropped removes r from orientation o of r's alpha and touches no
      other entry. */
  lemma DroppedHas(table: Table, mode: nat, o: nat, r: Triple)
    requires WellFormed(table) && InactiveEmpty(table, mode) && o < mode && o < 6
    ensures WellFormed(Dropped(table, o, r)) && InactiveEmpty(Dropped(table, o, r), mode)
    ensures Dropped(table, o, r).Keys == table.Keys
    ensures forall p, x :: Has(Dropped(table, o, r), p, x) <==> Has(table, p, x) && !(p == o && x == r)
    ensures forall a :: a in table && a != r.entity ==> Dropped(table, o, r)[a] == table[a]
  {
    if r.entity in table {
      HasUnlinked(table, o, r);
      UnlinkedWellFormed(table, o, r);
    }
  }

  /** One round of unlinkWithoutReleasing's loop, for forward sub-index j. */
  function Round(table: Table, mode: nat, skipEnabled: bool, skip: Symbol, t: Triple, j: nat): Table
    requires j < 3
  {
    if skipEnabled && t.Pos(j) == skip then table
    else
      var forward := Dropped(table, j, Reordered(t, j));
      if mode == HexaIndex then Dropped(forward, j + 3, Reordered(t, j + 3)) else forward
  }

  /** The table after the rounds of unlinkWithoutReleasing below k. */
  function UnlinkedBelow(table: Table, mode: nat, skipEnabled: bool, skip: Symbol, t: Triple, k: nat): Table
    requires k <= 3
    decreases k
  {
    if k == 0 then table
    else Round(UnlinkedBelow(table, mode, skipEnabled, skip, t, k - 1), mode, skipEnabled, skip, t, k - 1)
  }

  /** The table is `start` with t's rotations removed from the orientations
      the rounds below k touch, and from orientation k when `half` (the
      forward half of round k is done); the skipped symbol's entry is as it
      was. */
  ghost predicate RemovedBelow(start: Table, table: Table, mode: nat, skipEnabled: bool, skip: Symbol, t: Triple, k: nat, half: bool)
  {
    && WellFormed(table) && InactiveEmpty(table, mode) && table.Keys == start.Keys
    && (forall o, x :: Has(table, o, x) <==>
         Has(start, o, x) && !((TargetBelow(mode, skipEnabled, skip, t, o, k) || (half && o == k && o < 6)) && x == Reordered(t, o)))
    && (skipEnabled && skip in start ==> table[skip] == start[skip])
  }

  /** The forward half of round k. */
  lemma ForwardHalf(start: Table, table: Table, mode: nat, skipEnabled: bool, skip: Symbol, t: Triple, k: nat)
    requires IsIndexMode(mode) && k < IndexCount(mode) && !(skipEnabled && t.Pos(k) == skip)
    requires RemovedBelow(start, table, mode, skipEnabled, skip, t, k, false)
    ensures RemovedBelow(start, Dropped(table, k, Reordered(t, k)), mode, skipEnabled, skip, t, k, true)
  {
    TargetBelowNext(mode, skipEnabled, skip, t, k);
    IndexReordered(t, k);
    DroppedHas(table, mode, k, Reordered(t, k));
  }

  /** The orientations of round k. */
  lemma TargetBelowNext(mode: nat, skipEnabled: bool, skip: Symbol, t: Triple, k: nat)
    requires k < 3
    ensures forall o :: TargetBelow(mode, skipEnabled, skip, t, o, k + 1) <==>
      TargetBelow(mode, skipEnabled, skip, t, o, k) ||
      (!(skipEnabled && t.Pos(k) == skip) && (o == k || (mode == HexaIndex && o == k + 3)))
  {
  }

  /** The inverse half of round k, in HexaIndex. */
  lemma InverseHalf(start: Table, table: Table, mode: nat, skipEnabled: bool, skip: Symbol, t: Triple, k: nat)
    requires mode == HexaIndex && k < 3 && !(skipEnabled && t.Pos(k) == skip)
    requires RemovedBelow(start, table, mode, skipEnabled, skip, t, k, true)
    ensures RemovedBelow(start, Dropped(table, k + 3, Reordered(t, k + 3)), mode, skipEnabled, skip, t, k + 1, false)
  {
    TargetBelowNext(mode, skipEnabled, skip, t, k);
    IndexReordered(t, k);
    DroppedHas(table, mode, k + 3, Reordered(t, k + 3));
  }

  /** A whole round k. */
  lemma RoundStep(start: Table, table: Table, mode: nat, skipEnabled: bool, skip: Symbol, t: Triple, k: nat)
    requires IsIndexMode(mode) && k < IndexCount(mode)
    requires RemovedBelow(start, table, mode, skipEnabled, skip, t, k, false)
    ensures RemovedBelow(start, Round(table, mode, skipEnabled, skip, t, k), mode, skipEnabled, skip, t, k + 1, false)
  {
    TargetBelowNext(mode, skipEnabled, skip, t, k);
    if !(skipEnabled && t.Pos(k) == skip) {
      ForwardHalf(start, table, mode, skipEnabled, skip, t, k);
      if mode == HexaIndex {
        InverseHalf(start, Dropped(table, k, Reordered(t, k)), mode, skipEnabled, skip, t, k);
      }
    }
  }

  /** What the rounds below k remove: exactly t's rotations from the
      orientations they touch.  The skipped symbol's entry is untouched. */
  lemma {:induction false} UnlinkedBelowHas(table: Table, mode: nat, skipEnabled: bool, skip: Symbol, t: Triple, k: nat)
    requires IsIndexMode(mode) && WellFormed(table) && InactiveEmpty(table, mode) && k <= IndexCount(mode)
    ensures RemovedBelow(table, UnlinkedBelow(table, mode, skipEnabled, skip, t, k), mode, skipEnabled, skip, t, k, false)
  {
    if k > 0 {
      UnlinkedBelowHas(table, mode, skipEnabled, skip, t, k - 1);
      RoundStep(table, UnlinkedBelow(table, mode, skipEnabled, skip, t, k - 1), mode, skipEnabled, skip, t, k - 1);
    }
  }
  /** Before round k of unlinkWithoutReleasing the round's own preconditions
      hold, and it finds t exactly when t was present everywhere. */
  lemma RoundReady(table: Table, mode: nat, skipEnabled: bool, skip: Symbol, t: Triple, k: nat)
    requires IsIndexMode(mode) && WellFormed(table) && InactiveEmpty(table, mode) && k < IndexCount(mode)
    requires Uniform(table, mode, skipEnabled, skip, t) && !(skipEnabled && t.Pos(k) == skip)
    ensures WellFormed(UnlinkedBelow(table, mode, skipEnabled, skip, t, k))
    ensures mode == HexaIndex && Has(UnlinkedBelow(table, mode, skipEnabled, skip, t, k), k, Reordered(t, k)) ==>
      Has(UnlinkedBelow(table, mode, skipEnabled, skip, t, k), k + 3, Reordered(t, k + 3))
    ensures Has(UnlinkedBelow(table, mode, skipEnabled, skip, t, k), k, Reordered(t, k)) <==>
      PresentAll(table, mode, skipEnabled, skip, t)
  {
    UnlinkedBelowHas(table, mode, skipEnabled, skip, t, k);
    assert Target(mode, skipEnabled, skip, t, k);
    assert mode == HexaIndex ==> Target(mode, skipEnabled, skip, t, k + 3);
  }


  /** After all rounds the touched orientations are those of Target. */
  lemma TargetsAll(mode: nat, skipEnabled: bool, skip: Symbol, t: Triple)
    requires IsIndexMode(mode)
    ensures forall o :: TargetBelow(mode, skipEnabled, skip, t, o, IndexCount(mode)) <==> Target(mode, skipEnabled, skip, t, o)
  {
  }

  /** Whether unlinkWithoutReleasing finds t, the orientations it touches
      either all hold it or none does. */
  ghost predicate Uniform(table: Table, mode: nat, skipEnabled: bool, skip: Symbol, t: Triple)
  {
    PresentAll(table, mode, skipEnabled, skip, t) || AbsentAll(table, mode, skipEnabled, skip, t)
  }

  /** In a consistent index every triple is uniform. */
  lemma ConsistentUniform(table: Table, mode: nat, t: Triple)
    requires IsIndexMode(mode) && Consistent(table, mode)
    ensures Uniform(table, mode, false, Void, t)
    ensures PresentAll(table, mode, false, Void, t) <==> Has(table, EAV, t)
  {
    forall o: nat | o < mode
      ensures Has(table, o, Reordered(t, o)) <==> Has(table, EAV, t)
    {
      PresentEverywhere(table, mode, t, o);
    }
    NormalizedReordered(t, 0);
  }

  /** Once every round is done the index is consistent again and lacks t. */
  lemma UnlinkFinished(start: Table, mode: nat, t: Triple)
    requires IsIndexMode(mode) && Consistent(start, mode)
    ensures Consistent(UnlinkedBelow(start, mode, false, Void, t, IndexCount(mode)), mode)
    ensures UnlinkedBelow(start, mode, false, Void, t, IndexCount(mode)).Keys == start.Keys
    ensures forall x :: Has(UnlinkedBelow(start, mode, false, Void, t, IndexCount(mode)), EAV, x) <==> Has(start, EAV, x) && x != t
  {
    var table := UnlinkedBelow(start, mode, false, Void, t, IndexCount(mode));
    UnlinkedBelowHas(start, mode, false, Void, t, IndexCount(mode));
    TargetsAll(mode, false, Void, t);
    NormalizedReordered(t, 0);
    forall o | 0 < o < mode
      ensures Mirrors(table, o)
    {
      MirrorsRemoved(start, table, o, t);
    }
  }

  /** The triples unlink(Symbol) removes: in MonoIndex those whose entity
      is s, otherwise every triple that mentions s. */
  function Involves(mode: nat, x: Triple, s: Symbol): bool
  {
    if mode == MonoIndex then x.entity == s else Mentions(x, s)
  }

  /** The table is `start` after unlink(Symbol) has removed the triples in
      `done` from every orientation whose alpha is not s; s's own entry is
      untouched. */
  ghost predicate DroppedOf(start: Table, table: Table, mode: nat, s: Symbol, done: set<Triple>)
  {
    && WellFormed(table) && InactiveEmpty(table, mode) && table.Keys == start.Keys
    && s in table && table[s] == start[s]
    && (forall o: nat, x :: Has(table, o, x) <==>
         Has(start, o, x) && !(o < mode && o < 6 && x.entity != s && Normalized(x, o) in done))
  }

  /** One triple y of unlink(Symbol)'s loops: unlinkWithoutReleasing with
      s skipped finds it everywhere unless it was done already, and then
      removes it. */
  lemma DropStep(start: Table, table: Table, mode: nat, s: Symbol, done: set<Triple>, y: Triple)
    requires IsIndexMode(mode) && Consistent(start, mode) && DroppedOf(start, table, mode, s, done)
    requires Has(start, EAV, y)
    ensures Uniform(table, mode, true, s, y)
    ensures PresentAll(table, mode, true, s, y) ==>
      DroppedOf(start, UnlinkedBelow(table, mode, true, s, y, IndexCount(mode)), mode, s, done + {y})
    ensures !PresentAll(table, mode, true, s, y) ==> y in done
  {
    forall o | Target(mode, true, s, y, o)
      ensures Has(table, o, Reordered(y, o)) <==> y !in done
    {
      PresentEverywhere(start, mode, y, o);
      AlphaOf(y, o);
      NormalizedReordered(y, o);
    }
    if PresentAll(table, mode, true, s, y) {
      UnlinkedBelowHas(table, mode, true, s, y, IndexCount(mode));
      TargetsAll(mode, true, s, y);
      var after := UnlinkedBelow(table, mode, true, s, y, IndexCount(mode));
      forall o: nat, x
        ensures Has(after, o, x) <==> Has(start, o, x) && !(o < mode && o < 6 && x.entity != s && Normalized(x, o) in done + {y})
      {
        if o < 6 {
          NormalizedReordered(x, o);
          NormalizedReordered(y, o);
          AlphaOf(y, o);
        }
      }
    }
  }

  /** Symbol d shares a triple with s: some triple mentions s in a position
      the mode indexes and d in another. */
  ghost predicate Neighbour(table: Table, mode: nat, s: Symbol, d: Symbol)
  {
    exists y, j, i :: Has(table, EAV, y) && 0 <= j < IndexCount(mode) && y.Pos(j) == s && 0 <= i < 3 && i != j && y.Pos(i) == d
  }

  /** d is a beta of forward sub-index k of s or one of its gammas: what
      unlink(Symbol) marks dirty there. */
  ghost predicate NeighbourAt(table: Table, s: Symbol, k: nat, d: Symbol)
  {
    s in table && k < |table[s]| && exists b :: b in table[s][k] && (d == b || d in table[s][k][b])
  }

  /** The betas and gammas of sub-index k of s are the other symbols of the
      triples that mention s at position k. */
  lemma NeighbourAtMeans(table: Table, mode: nat, s: Symbol, k: nat, d: Symbol)
    requires IsIndexMode(mode) && Consistent(table, mode) && k < IndexCount(mode) && s in table
    ensures NeighbourAt(table, s, k, d) <==>
      exists y, i :: Has(table, EAV, y) && y.Pos(k) == s && 0 <= i < 3 && i != k && y.Pos(i) == d
  {
    if NeighbourAt(table, s, k, d) {
      var b :| b in table[s][k] && (d == b || d in table[s][k][b]);
      var g :| g in table[s][k][b] && (d == b || d == g);
      var r := Triple(s, b, g);
      assert Has(table, k, r);
      NormalizedForward(r, k);
      var y := Normalized(r, k);
      PresentEverywhere(table, mode, y, k);
      IndexReordered(y, k);
      var i := if d == b then (k + 1) % 3 else (k + 2) % 3;
      assert Has(table, EAV, y) && y.Pos(k) == s && 0 <= i < 3 && i != k && y.Pos(i) == d;
    }
    if exists y, i :: Has(table, EAV, y) && y.Pos(k) == s && 0 <= i < 3 && i != k && y.Pos(i) == d {
      var y, i :| Has(table, EAV, y) && y.Pos(k) == s && 0 <= i < 3 && i != k && y.Pos(i) == d;
      PresentEverywhere(table, mode, y, k);
      IndexReordered(y, k);
      var r := ForwardIndex(y, k);
      assert Has(table, k, r);
      assert r.attribute in table[s][k] && (d == r.attribute || d == r.value);
    }
  }

  /** unlink(Symbol)'s beta loop over sub-index `sub` (sub-index k of s):
      the gammas of every beta no longer in `betas` are done ... */
  ghost predicate BetasDone(sub: map<Symbol, set<Symbol>>, s: Symbol, k: nat, betas: set<Symbol>, done: set<Triple>)
    requires k < 6
  {
    forall b, g :: b in sub && b !in betas && g in sub[b] ==> Normalized(Triple(s, b, g), k) in done
  }

  /** ... and those betas and their gammas are marked dirty. */
  ghost predicate BetasDirty(sub: map<Symbol, set<Symbol>>, betas: set<Symbol>, dirty: set<Symbol>)
  {
    forall d :: d in dirty <==> exists b :: b in sub && b !in betas && (d == b || d in sub[b])
  }

  /** One beta of the loop. */
  lemma BetaStep(sub: map<Symbol, set<Symbol>>, s: Symbol, k: nat, betas: set<Symbol>, b: Symbol,
                 done: set<Triple>, done': set<Triple>, dirty: set<Symbol>)
    requires k < 6 && b in betas && betas <= sub.Keys && done <= done'
    requires BetasDone(sub, s, k, betas, done) && BetasDirty(sub, betas, dirty)
    requires forall g :: g in sub[b] ==> Normalized(Triple(s, b, g), k) in done'
    ensures BetasDone(sub, s, k, betas - {b}, done')
    ensures BetasDirty(sub, betas - {b}, dirty + {b} + sub[b])
  {
  }

  /** After the loop every triple with s at position k is done. */
  lemma BetasDoneAll(start: Table, mode: nat, s: Symbol, k: nat, done: set<Triple>)
    requires IsIndexMode(mode) && Consistent(start, mode) && k < IndexCount(mode) && s in start
    requires BetasDone(start[s][k], s, k, {}, done)
    ensures forall y :: Has(start, EAV, y) && y.Pos(k) == s ==> y in done
  {
    CoveredAt(start, mode, s, k, done);
  }

  /** Once every beta and gamma of sub-index k of s is done, so is every
      triple with s at position k. */
  lemma CoveredAt(start: Table, mode: nat, s: Symbol, k: nat, done: set<Triple>)
    requires IsIndexMode(mode) && Consistent(start, mode) && k < IndexCount(mode) && s in start
    requires forall b, g :: b in start[s][k] && g in start[s][k][b] ==> Normalized(Triple(s, b, g), k) in done
    ensures forall y :: Has(start, EAV, y) && y.Pos(k) == s ==> y in done
  {
    forall y | Has(start, EAV, y) && y.Pos(k) == s
      ensures y in done
    {
      PresentEverywhere(start, mode, y, k);
      IndexReordered(y, k);
      NormalizedReordered(y, k);
      var r := ForwardIndex(y, k);
      assert Has(start, k, r);
      assert Normalized(Triple(s, r.attribute, r.value), k) == y;
    }
  }

  /** A symbol without an entry is involved in no triple. */
  lemma NoEntryUninvolved(table: Table, mode: nat, s: Symbol)
    requires IsIndexMode(mode) && Consistent(table, mode) && s !in table
    ensures forall x :: Has(table, EAV, x) ==> !Involves(mode, x, s)
    ensures forall d :: !Neighbour(table, mode, s, d)
  {
    forall x, j | Has(table, EAV, x) && 0 <= j < IndexCount(mode)
      ensures x.Pos(j) != s
    {
      PresentEverywhere(table, mode, x, j);
      IndexReordered(x, j);
    }
    forall x | Has(table, EAV, x)
      ensures !Involves(mode, x, s)
    {
      assert x.Pos(0) != s;
      if mode != MonoIndex {
        assert x.Pos(1) != s && x.Pos(2) != s;
      }
    }
  }

  /** unlink(Symbol) ends by emptying s's sub-indices.  Once every triple
      involving s is done the index is consistent again and holds exactly
      the triples not involving s. */
  lemma ClearedEntry(start: Table, table: Table, mode: nat, s: Symbol, done: set<Triple>)
    requires IsIndexMode(mode) && Consistent(start, mode) && DroppedOf(start, table, mode, s, done)
    requires forall y :: y in done <==> Has(start, EAV, y) && Involves(mode, y, s)
    ensures Consistent(table[s := EmptySubIndices()], mode)
    ensures forall x :: Has(table[s := EmptySubIndices()], EAV, x) <==> Has(start, EAV, x) && !Involves(mode, x, s)
  {
    var final := table[s := EmptySubIndices()];
    assert forall o, x :: Has(final, o, x) <==> Has(table, o, x) && x.entity != s;
    forall o | 0 < o < mode
      ensures Mirrors(final, o)
    {
      forall r
        ensures Has(final, o, r) <==> Has(final, EAV, Normalized(r, o))
      {
        var y := Normalized(r, o);
        NormalizedReordered(r, o);
        AlphaOf(y, o);
        NormalizedReordered(y, 0);
        PresentEverywhere(start, mode, y, o);
        assert AlphaPos(o) == 0 || AlphaPos(o) == 1 || AlphaPos(o) == 2;
      }
    }
  }

  /** The releases of unlink(Symbol), stated on the final index. */
  lemma ReleasedNeighbours(start: Table, mid: Table, mode: nat, s: Symbol, dirty: set<Symbol>)
    requires IsIndexMode(mode) && Consistent(start, mode) && s in start && WellFormed(mid)
    requires forall d :: d in dirty <==> exists k :: 0 <= k < IndexCount(mode) && NeighbourAt(start, s, k, d)
    ensures forall d :: d in Releasable(mid, mode, dirty) + {s} <==>
      d == s || (Neighbour(start, mode, s, d) && Unused(mid[s := EmptySubIndices()], mode, d))
  {
    forall d
      ensures d in dirty <==> Neighbour(start, mode, s, d)
    {
      if d in dirty {
        var k :| 0 <= k < IndexCount(mode) && NeighbourAt(start, s, k, d);
        NeighbourAtMeans(start, mode, s, k, d);
      }
      if Neighbour(start, mode, s, d) {
        var y, k, i :| Has(start, EAV, y) && 0 <= k < IndexCount(mode) && y.Pos(k) == s && 0 <= i < 3 && i != k && y.Pos(i) == d;
        NeighbourAtMeans(start, mode, s, k, d);
      }
    }
  }

  function Mentions(x: Triple, s: Symbol): bool
  {
    x.entity == s || x.attribute == s || x.value == s
  }

  /** tryToReleaseSymbol's test: the forward sub-indices of s are empty. */
  ghost predicate Unused(table: Table, mode: nat, s: Symbol)
  {
    s in table && |table[s]| >= IndexCount(mode) && forall o :: 0 <= o < IndexCount(mode) ==> table[s][o] == map[]
  }

  /** The candidates that are unused. */
  ghost function Releasable(table: Table, mode: nat, candidates: set<Symbol>): (r: set<Symbol>)
    ensures forall s :: s in r <==> s in candidates && Unused(table, mode, s)
  {
    set s | s in candidates && Unused(table, mode, s)
  }

  /** A symbol some triple mentions in a position the mode indexes has a
      non-empty forward sub-index. */
  lemma MentionedUsed(table: Table, mode: nat, s: Symbol, x: Triple, j: nat)
    requires IsIndexMode(mode) && Consistent(table, mode) && Has(table, EAV, x)
    requires j < IndexCount(mode) && x.Pos(j) == s
    ensures !Unused(table, mode, s)
  {
    PresentEverywhere(table, mode, x, j);
    AlphaOf(x, j);
    assert Reordered(x, j).attribute in table[s][j];
  }

  /** A non-empty forward sub-index of s holds a rotation of a triple that
      mentions s there. */
  lemma UsedMentioned(table: Table, mode: nat, s: Symbol) returns (x: Triple, j: nat)
    requires IsIndexMode(mode) && Consistent(table, mode) && s in table && !Unused(table, mode, s)
    ensures Has(table, EAV, x) && j < IndexCount(mode) && x.Pos(j) == s
  {
    j :| 0 <= j < IndexCount(mode) && table[s][j] != map[];
    var b :| b in table[s][j];
    var g :| g in table[s][j][b];
    var r := Triple(s, b, g);
    assert Has(table, j, r);
    NormalizedReordered(r, j);
    x := Normalized(r, j);
    PresentEverywhere(table, mode, x, j);
    AlphaOf(x, j);
  }

  /** What the test means: in TriIndex and HexaIndex a symbol is unused
      exactly when no triple mentions it; in MonoIndex, when it is the
      entity of no triple. */
  lemma UnusedMeans(table: Table, mode: nat, s: Symbol)
    requires IsIndexMode(mode) && Consistent(table, mode) && s in table
    ensures Unused(table, mode, s) <==> forall x :: Has(table, EAV, x) ==> (if mode == MonoIndex then x.entity != s else !Mentions(x, s))
  {
    if Unused(table, mode, s) {
      forall x | Has(table, EAV, x)
        ensures if mode == MonoIndex then x.entity != s else !Mentions(x, s)
      {
        if mode != MonoIndex && x.attribute == s {
          MentionedUsed(table, mode, s, x, 1);
        }
        if mode != MonoIndex && x.value == s {
          MentionedUsed(table, mode, s, x, 2);
        }
      }
    } else {
      var x, j := UsedMentioned(table, mode, s);
      assert if mode == MonoIndex then x.entity == s else Mentions(x, s);
    }
  }

  /** Releasable over one more candidate. */
  lemma ReleasableNext(table: Table, mode: nat, t: Triple, i: nat)
    requires i < 3
    ensures Releasable(table, mode, Positions(t, i + 1)) ==
      Releasable(table, mode, Positions(t, i)) + (if Unused(table, mode, t.Pos(i)) then {t.Pos(i)} else {})
  {
  }

  // ---------------------------------------------------------------------
  // The two further reports of unlink: the assertion of tryToReleaseSymbol
  // and the sub-indices unlink(Symbol) releases.

  /** The MonoIndex index after link((1, 2, 3)) on an empty one: symbol 2
      occurs only as an attribute and has no entry, yet unlink((1, 2, 3))
      passes it to tryToReleaseSymbol, which as written asserts an entry. */
  lemma MonoUnlinkUnindexed()
    ensures Consistent(MonoExample(), MonoIndex) && Has(MonoExample(), EAV, Triple(1, 2, 3))
    ensures 2 !in UnlinkedBelow(MonoExample(), MonoIndex, false, Void, Triple(1, 2, 3), IndexCount(MonoIndex))
  {
    UnlinkFinished(MonoExample(), MonoIndex, Triple(1, 2, 3));
  }

  function MonoExample(): Table
  {
    Linked(map[1 := EmptySubIndices()], EAV, Triple(1, 2, 3))
  }

  /** setSolitary reaches the same assertion.  On MonoIndex holding
      (1, 2, 3), setSolitary((1, 2, 4)) links (1, 2, 4), which gives only
      the entity an entry, and then passes the attribute 2 and the displaced
      value 3 to tryToReleaseSymbol, though neither has an entry. */
  lemma MonoSetSolitaryUnindexed()
    ensures var t := Triple(1, 2, 4);
      Displaced(MonoExample(), t, false) == {3} &&
      2 !in MonoExample().Keys + Positions(t, IndexCount(MonoIndex)) &&
      3 !in MonoExample().Keys + Positions(t, IndexCount(MonoIndex))
  {
    var t := Triple(1, 2, 4);
    assert Has(MonoExample(), EAV, Triple(1, 2, 3));
    assert ValuesOf(MonoExample(), 1, 2) == {3};
  }

  /** On TriIndex and HexaIndex every symbol of a stored triple has an
      entry, so a symbol without one is held by nothing.  scrutinizeExistence
      of such a symbol (a fresh one, say) therefore goes on to the asserted
      unlink(symbol), which returns false for it. */
  lemma UnindexedUnheld(table: Table, mode: nat, s: Symbol)
    requires IsIndexMode(mode) && mode != MonoIndex && Consistent(table, mode) && s !in table
    ensures !Held(table, mode, s)
  {
    NoEntryUninvolved(table, mode, s);
    forall p | Has(table, EAV, Triple(p, Holds, s))
      ensures false
    {
      assert Involves(mode, Triple(p, Holds, s), s);
    }
  }

  /** The end of unlink(Symbol) AS WRITTEN: only the first IndexCount
      sub-indices of s are released (emptied). */
  function ClearedAsWritten(table: Table, mode: nat, s: Symbol): (r: Table)
    requires WellFormed(table) && s in table
    ensures r.Keys == table.Keys && |r[s]| == 6
    ensures forall o :: 0 <= o < 6 ==> r[s][o] == if o < IndexCount(mode) then map[] else table[s][o]
    ensures forall a :: a in table && a != s ==> r[a] == table[a]
  {
    table[s := seq(6, (o: int) requires 0 <= o < 6 => if o < IndexCount(mode) then map[] else table[s][o])]
  }

  /** On HexaIndex the as-written end keeps s's inverse sub-indices (which
      unlink(Symbol)'s loops skip): a triple with entity s is gone from EAV
      but still listed in EVA, and the index is no longer consistent. */
  lemma HexaUnlinkLeaves(start: Table, table: Table, s: Symbol, done: set<Triple>, x: Triple)
    requires Consistent(start, HexaIndex) && DroppedOf(start, table, HexaIndex, s, done)
    requires Has(start, EAV, x) && x.entity == s
    ensures Has(table, EVA, Reordered(x, EVA))
    ensures Has(ClearedAsWritten(table, HexaIndex, s), EVA, Reordered(x, EVA))
    ensures !Has(ClearedAsWritten(table, HexaIndex, s), EAV, x)
    ensures !Consistent(ClearedAsWritten(table, HexaIndex, s), HexaIndex)
  {
    PresentEverywhere(start, HexaIndex, x, EVA);
    AlphaOf(x, EVA);
    NormalizedReordered(x, EVA);
    var final := ClearedAsWritten(table, HexaIndex, s);
    assert !Mirrors(final, EVA) by {
      assert Has(final, EVA, Reordered(x, EVA));
    }
  }

  // ---------------------------------------------------------------------
  // setSolitary, getUncertain and scrutinizeExistence.

  /** The values of e's attribute a: what query(9, (e, a, Void)) reports. */
  function ValuesOf(table: Table, e: Symbol, a: Symbol): (vs: set<Symbol>)
    requires WellFormed(table)
    ensures forall g :: g in vs <==> Has(table, EAV, Triple(e, a, g))
  {
    if e in table && a in table[e][EAV] then table[e][EAV][a] else {}
  }

  /** A duplicate-free sequence has as many elements as the set it lists. */
  lemma {:induction false} DistinctCount(s: seq<Symbol>, S: set<Symbol>)
    requires NoDuplicates(s) && forall g :: g in s <==> g in S
    ensures |S| == |s|
    decreases |s|
  {
    if |s| > 0 {
      var rest := s[1..];
      forall g
        ensures g in rest <==> g in S - {s[0]}
      {
        if g in rest {
          var j :| 0 <= j < |rest| && rest[j] == g;
          assert s[j + 1] == g;
        }
        if g in S - {s[0]} {
          var j :| 0 <= j < |s| && s[j] == g;
          assert rest[j - 1] == g;
        }
      }
      DistinctCount(rest, S - {s[0]});
    }
  }

  /** The values setSolitary(t, linkVoid) unlinks: every value of t's
      entity and attribute but the one it keeps. */
  function Displaced(table: Table, t: Triple, linkVoid: bool): (vs: set<Symbol>)
    requires WellFormed(table)
    ensures forall g :: g in vs <==>
      Has(table, EAV, Triple(t.entity, t.attribute, g)) && !(g == t.value && (linkVoid || t.value != Void))
  {
    ValuesOf(table, t.entity, t.attribute) - (if linkVoid || t.value != Void then {t.value} else {})
  }

  /** What query(1, (Void, Holds, s)) counts: the triples (p, Holds, s).  On
      MonoIndex that pattern is answered by the scan of all of EAV, which
      matches nothing, so any triple counts. */
  ghost predicate Held(table: Table, mode: nat, s: Symbol)
  {
    if mode == MonoIndex then exists x :: Has(table, EAV, x)
    else exists p :: Has(table, EAV, Triple(p, Holds, s))
  }

  /** x involves one of the symbols of U, in unlink(Symbol)'s sense. */
  predicate InvolvesAny(mode: nat, x: Triple, U: set<Symbol>)
  {
    if mode == MonoIndex then x.entity in U else x.entity in U || x.attribute in U || x.value in U
  }

  /** The triples of EAV. */
  ghost function Stored(table: Table): (ts: set<Triple>)
    requires WellFormed(table)
    ensures forall x :: x in ts <==> Has(table, EAV, x)
  {
    set a, b, g | a in table && b in table[a][EAV] && g in table[a][EAV][b] :: Triple(a, b, g)
  }

  lemma SubsetCount(A: set<Triple>, B: set<Triple>)
    requires A <= B
    ensures |A| <= |B| && (A != B ==> |A| < |B|)
  {
    assert B == A + (B - A);
    if A != B {
      var x :| x in B && x !in A;
    }
  }

  /** Unlinking `sym` removes every triple that involves it, so the stored
      triples do not grow, and they shrink when `sym` held anything. */
  lemma StoredShrinks(table: Table, after: Table, mode: nat, sym: Symbol, children: set<Symbol>)
    requires WellFormed(table) && WellFormed(after)
    requires forall c :: c in children <==> Has(table, EAV, Triple(sym, Holds, c))
    requires forall x :: Has(after, EAV, x) <==> Has(table, EAV, x) && !Involves(mode, x, sym)
    ensures |Stored(after)| <= |Stored(table)|
    ensures |Stored(after)| == |Stored(table)| ==> children == {}
  {
    SubsetCount(Stored(after), Stored(table));
    if children != {} {
      var c :| c in children;
      assert Triple(sym, Holds, c) in Stored(table) - Stored(after);
    }
  }

  /** A non-empty set of symbols has a largest element (pop_back). */
  lemma {:induction false} LargestExists(S: set<Symbol>)
    requires S != {}
    ensures exists m :: m in S && forall y :: y in S ==> y <= m
    decreases |S|
  {
    var x :| x in S;
    if S != {x} {
      LargestExists(S - {x});
      var m :| m in S - {x} && forall y :: y in S - {x} ==> y <= m;
      var top := if x > m then x else m;
      forall y | y in S
        ensures y <= top
      {
        if y != x {
          assert y in S - {x};
        }
      }
    }
  }

  /** The state of scrutinizeExistence(s), started on `start`: U are the
      symbols unlinked so far and W the worklist.  Triples only go away, and
      only those involving an unlinked symbol; none involving one is left;
      every unlinked or queued symbol is s or held by an unlinked one; and on
      Tri- and HexaIndex, while the Holds symbol itself is not unlinked, every
      holder of an unlinked symbol is unlinked too (no symbol with a
      remaining incoming Holds edge goes), and every symbol an unlinked one
      held is unlinked, queued or still held. */
  ghost predicate Scrutiny(start: Table, table: Table, mode: nat, s: Symbol, U: set<Symbol>, W: set<Symbol>)
  {
    && (forall x :: Has(table, EAV, x) ==> Has(start, EAV, x))
    && (forall x :: Has(start, EAV, x) && !Has(table, EAV, x) ==> InvolvesAny(mode, x, U))
    && (forall x, u :: u in U && Has(table, EAV, x) ==> !Involves(mode, x, u))
    && (forall u :: u in U ==> u == s || exists p :: p in U && Has(start, EAV, Triple(p, Holds, u)))
    && (forall w :: w in W ==> w == s || exists p :: p in U && Has(start, EAV, Triple(p, Holds, w)))
    && UnlinkedUnheld(start, mode, U)
    && (mode != MonoIndex && Holds !in U ==>
         forall u, c :: u in U && Has(start, EAV, Triple(u, Holds, c)) ==> c in U || c in W || Held(table, mode, c))
  }

  /** No symbol of U keeps a holder.  On Tri- and HexaIndex, while the
      Holds symbol itself is not among them, every symbol of start that held
      one of U is in U; on MonoIndex, where any triple counts as a holder,
      U is empty unless start holds no triple at all. */
  ghost predicate UnlinkedUnheld(start: Table, mode: nat, U: set<Symbol>)
  {
    && (mode != MonoIndex && Holds !in U ==>
         forall u, p :: u in U && Has(start, EAV, Triple(p, Holds, u)) ==> p in U)
    && (mode == MonoIndex && U != {} ==> forall x :: !Has(start, EAV, x))
  }

  /** A held symbol leaves the worklist. */
  lemma ScrutinySkip(start: Table, table: Table, mode: nat, s: Symbol, U: set<Symbol>, W: set<Symbol>, sym: Symbol)
    requires Scrutiny(start, table, mode, s, U, W) && Held(table, mode, sym)
    ensures Scrutiny(start, table, mode, s, U, W - {sym})
  {
  }

  /** An unheld symbol is unlinked and the symbols it holds are queued. */
  lemma ScrutinyUnlink(start: Table, table: Table, after: Table, mode: nat, s: Symbol,
                       U: set<Symbol>, W: set<Symbol>, sym: Symbol, children: set<Symbol>)
    requires Scrutiny(start, table, mode, s, U, W) && sym in W && !Held(table, mode, sym)
    requires forall c :: c in children <==> Has(table, EAV, Triple(sym, Holds, c))
    requires forall x :: Has(after, EAV, x) <==> Has(table, EAV, x) && !Involves(mode, x, sym)
    ensures Scrutiny(start, after, mode, s, U + {sym}, W - {sym} + children)
  {
    QueuedHeld(start, table, mode, s, U, W, sym, children);
    HoldersUnlinked(start, table, mode, U, sym);
    if mode != MonoIndex && Holds !in U + {sym} {
      HeldClosed(start, table, after, mode, U, W, sym, children);
    }
  }

  /** The holders part of the unlink step.  On Tri- and HexaIndex a symbol
      unlinked because nothing holds it any more lost its holders' triples
      to earlier unlinks, so those holders were unlinked.  On MonoIndex the
      first symbol unlinked finds the index, still as it started, empty. */
  lemma HoldersUnlinked(start: Table, table: Table, mode: nat, U: set<Symbol>, sym: Symbol)
    requires !Held(table, mode, sym)
    requires forall x :: Has(start, EAV, x) && !Has(table, EAV, x) ==> InvolvesAny(mode, x, U)
    requires UnlinkedUnheld(start, mode, U)
    ensures UnlinkedUnheld(start, mode, U + {sym})
  {
    if mode != MonoIndex && Holds !in U + {sym} {
      forall u, p | u in U + {sym} && Has(start, EAV, Triple(p, Holds, u))
        ensures p in U + {sym}
      {
        if u !in U {
          assert !Has(table, EAV, Triple(p, Holds, u));
          assert InvolvesAny(mode, Triple(p, Holds, u), U);
        }
      }
    }
    if mode == MonoIndex && U == {} {
      forall x | Has(start, EAV, x)
        ensures Has(table, EAV, x)
      {
      }
    }
  }

  /** The symbols queued by the unlink step are held by an unlinked one. */
  lemma QueuedHeld(start: Table, table: Table, mode: nat, s: Symbol,
                   U: set<Symbol>, W: set<Symbol>, sym: Symbol, children: set<Symbol>)
    requires forall x :: Has(table, EAV, x) ==> Has(start, EAV, x)
    requires forall w :: w in W ==> w == s || exists p :: p in U && Has(start, EAV, Triple(p, Holds, w))
    requires forall c :: c in children <==> Has(table, EAV, Triple(sym, Holds, c))
    ensures forall w :: w in W - {sym} + children ==> w == s || exists p :: p in U + {sym} && Has(start, EAV, Triple(p, Holds, w))
  {
    forall w | w in W - {sym} + children
      ensures w == s || exists p :: p in U + {sym} && Has(start, EAV, Triple(p, Holds, w))
    {
      if w in children {
        assert Has(start, EAV, Triple(sym, Holds, w));
      } else {
        assert w in W;
      }
    }
  }

  /** The closure part of the unlink step, on Tri- and HexaIndex. */
  lemma HeldClosed(start: Table, table: Table, after: Table, mode: nat,
                   U: set<Symbol>, W: set<Symbol>, sym: Symbol, children: set<Symbol>)
    requires mode != MonoIndex && Holds !in U && Holds != sym
    requires forall x :: Has(start, EAV, x) && !Has(table, EAV, x) ==> InvolvesAny(mode, x, U)
    requires forall u, c :: u in U && Has(start, EAV, Triple(u, Holds, c)) ==> c in U || c in W || Held(table, mode, c)
    requires forall c :: c in children <==> Has(table, EAV, Triple(sym, Holds, c))
    requires forall x :: Has(after, EAV, x) <==> Has(table, EAV, x) && !Involves(mode, x, sym)
    ensures forall u, c :: u in U + {sym} && Has(start, EAV, Triple(u, Holds, c)) ==>
      c in U + {sym} || c in W - {sym} + children || Held(after, mode, c)
  {
    forall u, c | u in U + {sym} && Has(start, EAV, Triple(u, Holds, c))
      ensures c in U + {sym} || c in W - {sym} + children || Held(after, mode, c)
    {
      if u == sym && Has(table, EAV, Triple(u, Holds, c)) {
        assert c in children;
      } else if u == sym {
        assert InvolvesAny(mode, Triple(u, Holds, c), U);
      } else if c !in U && c !in W && c != sym {
        var p :| Has(table, EAV, Triple(p, Holds, c));
        if p == sym {
          assert c in children;
        } else {
          assert Has(after, EAV, Triple(p, Holds, c));
        }
      }
    }
  }

  /** setSolitary's EAV afterwards, from the link and the unlinks. */
  lemma SolitaryHas(s0: Table, s1: Table, s2: Table, t: Triple, keep: bool, toLink: bool, dirty: set<Symbol>)
    requires WellFormed(s0) && (toLink <==> keep && !Has(s0, EAV, t))
    requires forall g :: g in dirty <==> Has(s0, EAV, Triple(t.entity, t.attribute, g)) && !(g == t.value && keep)
    requires forall x :: Has(s1, EAV, x) <==> Has(s0, EAV, x) || (toLink && x == t)
    requires forall x :: Has(s2, EAV, x) <==> Has(s1, EAV, x) && !(x.entity == t.entity && x.attribute == t.attribute && x.value in dirty)
    ensures forall x :: Has(s2, EAV, x) <==>
      if x.entity == t.entity && x.attribute == t.attribute then x == t && keep else Has(s0, EAV, x)
  {
    forall x: Triple | x.entity == t.entity && x.attribute == t.attribute
      ensures Has(s2, EAV, x) <==> x == t && keep
    {
      assert x == Triple(t.entity, t.attribute, x.value);
    }
  }

  class Index {
    var symbols: Table
    const indexMode: nat
    var released: set<Symbol>

    ghost predicate Valid()
      reads this
    {
      IsIndexMode(indexMode) && Consistent(symbols, indexMode)
    }

    constructor(indexMode: nat)
      requires IsIndexMode(indexMode)
      ensures Valid() && this.indexMode == indexMode && symbols == map[] && released == {}
    {
      this.indexMode := indexMode;
      symbols := map[];
      released := {};
    }

    /** linkInSubIndex: adds (alpha, beta, gamma) = r to orientation o of
        alpha, answering whether it was not there yet. */
    method LinkInSubIndex(r: Triple, o: nat) returns (result: bool)
      requires r.entity in symbols && o < |symbols[r.entity]|
      modifies this
      ensures result <==> !Has(old(symbols), o, r)
      ensures symbols == Linked(old(symbols), o, r) && released == old(released)
      ensures !result ==> symbols == old(symbols)
    {
      var beta := symbols[r.entity][o];
      result := !(r.attribute in beta && r.value in beta[r.attribute]);
      if !result {
        LinkedPresent(symbols, o, r);
      }
      symbols := Linked(symbols, o, r);
    }

    /** linkInSubIndex on the rotation of t that orientation o stores,
        stated against the index link started from. */
    method LinkRotation(t: Triple, o: nat, ghost start: Table, ghost done: set<nat>) returns (linked: bool)
      requires AddedIn(start, symbols, indexMode, t, done) && o < indexMode && o < 6
      requires Reordered(t, o).entity in symbols
      modifies this
      ensures released == old(released)
      ensures linked <==> !Has(start, o, Reordered(t, o)) && o !in done
      ensures AddedIn(start, symbols, indexMode, t, done + {o})
      ensures !linked ==> symbols == old(symbols)
      ensures symbols.Keys == old(symbols).Keys
    {
      AddedInStep(start, symbols, indexMode, t, done, o);
      linked := LinkInSubIndex(Reordered(t, o), o);
    }

    /** The inverse half of a HexaIndex round: orientation k + 3, which
        cannot hold t yet once orientation k did not. */
    method LinkInverse(t: Triple, k: nat, ghost start: Table)
      requires indexMode == HexaIndex && Consistent(start, indexMode) && k < 3
      requires AddedIn(start, symbols, indexMode, t, DoneBelow(indexMode, k) + {k})
      requires Reordered(t, k).entity in symbols && !Has(start, EAV, t)
      modifies this
      ensures released == old(released) && symbols.Keys == old(symbols).Keys
      ensures AddedIn(start, symbols, indexMode, t, DoneBelow(indexMode, k + 1))
    {
      IndexReordered(t, k);
      PresentEverywhere(start, indexMode, t, k + 3);
      ghost var done := DoneBelow(indexMode, k) + {k};
      var mirrored := LinkRotation(t, k + 3, start, done);
      assert mirrored;
      assert done + {k + 3} == DoneBelow(indexMode, k + 1);
    }

    /** One round of link's loop: sub-index k of t's k-th symbol, and in
        HexaIndex its inverse.  Only round 0 can find t already there. */
    method LinkStep(t: Triple, k: nat, ghost start: Table) returns (linked: bool)
      requires IsIndexMode(indexMode) && Consistent(start, indexMode) && k < IndexCount(indexMode)
      requires AddedIn(start, symbols, indexMode, t, DoneBelow(indexMode, k))
      requires symbols.Keys == start.Keys + Positions(t, k)
      requires k > 0 ==> !Has(start, EAV, t)
      requires k == 0 ==> symbols == start
      modifies this
      ensures released == old(released)
      ensures linked ==> !Has(start, EAV, t)
      ensures linked ==> AddedIn(start, symbols, indexMode, t, DoneBelow(indexMode, k + 1))
      ensures linked ==> symbols.Keys == start.Keys + Positions(t, k + 1)
      ensures !linked ==> k == 0 && Has(start, EAV, t) && symbols == start
    {
      ghost var done := DoneBelow(indexMode, k);
      if t.Pos(k) !in symbols {
        AddedInEntry(start, symbols, indexMode, t, done, t.Pos(k));
        symbols := symbols[t.Pos(k) := EmptySubIndices()];
      }
      assert symbols.Keys == start.Keys + Positions(t, k + 1);
      IndexReordered(t, k);
      PresentEverywhere(start, indexMode, t, k);
      linked := LinkRotation(t, k, start, done);
      if !linked {
        NormalizedReordered(t, 0);
        return;
      }
      if indexMode == HexaIndex {
        LinkInverse(t, k, start);
      } else {
        assert done + {k} == DoneBelow(indexMode, k + 1);
      }
    }

    /** link: adds t to every maintained orientation, creating the entries
        of its symbols.  A triple already present is found in sub-index 0
        and nothing changes. */
    method Link(t: Triple) returns (result: bool)
      requires Valid()
      modifies this
      ensures Valid() && released == old(released)
      ensures result <==> !old(Has(symbols, EAV, t))
      ensures forall x :: Has(symbols, EAV, x) <==> old(Has(symbols, EAV, x)) || x == t
      ensures !result ==> symbols == old(symbols)
      ensures result ==> symbols.Keys == old(symbols).Keys + Positions(t, IndexCount(indexMode))
    {
      var count := IndexCount(indexMode);
      var k := 0;
      while k < count
        invariant 0 <= k <= count && released == old(released)
        invariant AddedIn(old(symbols), symbols, indexMode, t, DoneBelow(indexMode, k))
        invariant symbols.Keys == old(symbols).Keys + Positions(t, k)
        invariant k == 0 ==> symbols == old(symbols)
        invariant k > 0 ==> !Has(old(symbols), EAV, t)
      {
        var linked := LinkStep(t, k, old(symbols));
        if !linked {
          return false;
        }
        k := k + 1;
      }
      LinkFinished(old(symbols), symbols, indexMode, t);
      return true;
    }
  
    /** unlinkInSubIndex: removes r = (alpha, beta, gamma) from orientation
        o of alpha, answering whether it was there. */
    method UnlinkInSubIndex(r: Triple, o: nat) returns (result: bool)
      requires r.entity in symbols && o < |symbols[r.entity]|
      modifies this
      ensures result <==> Has(old(symbols), o, r)
      ensures symbols == Unlinked(old(symbols), o, r) && released == old(released)
      ensures !result ==> symbols == old(symbols)
    {
      var alpha := symbols[r.entity][o];
      if r.attribute !in alpha {
        return false;
      }
      var beta := alpha[r.attribute];
      if r.value !in beta {
        return false;
      }
      beta := beta - {r.value};
      var alpha': SubIndex := if beta == {} then alpha - {r.attribute} else alpha[r.attribute := beta];
      symbols := symbols[r.entity := symbols[r.entity][o := alpha']];
      return true;
    }

    /** One round of unlinkWithoutReleasing's loop, for a forward
        sub-index k whose symbol is not skipped. */
    method UnlinkRound(t: Triple, k: nat, skipEnabled: bool, skip: Symbol) returns (unlinked: bool)
      requires IsIndexMode(indexMode) && k < IndexCount(indexMode) && !(skipEnabled && t.Pos(k) == skip)
      requires WellFormed(symbols)
      requires indexMode == HexaIndex && Has(symbols, k, Reordered(t, k)) ==> Has(symbols, k + 3, Reordered(t, k + 3))
      modifies this
      ensures released == old(released)
      ensures unlinked <==> Has(old(symbols), k, Reordered(t, k))
      ensures unlinked ==> symbols == Round(old(symbols), indexMode, skipEnabled, skip, t, k)
      ensures !unlinked ==> symbols == old(symbols)
    {
      IndexReordered(t, k);
      if t.Pos(k) !in symbols {
        return false;
      }
      unlinked := UnlinkInSubIndex(ForwardIndex(t, k), k);
      if !unlinked || indexMode != HexaIndex {
        return;
      }
      HasUnlinked(old(symbols), k, Reordered(t, k));
      var mirrored := UnlinkInSubIndex(ReverseIndex(t, k), k + 3);
      assert mirrored;
    }

    /** unlinkWithoutReleasing: removes t from every maintained orientation
        whose alpha is not `skip` (when skipping is enabled).  It fails,
        changing nothing, when those orientations do not hold t. */
    method UnlinkWithoutReleasing(t: Triple, skipEnabled: bool, skip: Symbol) returns (result: bool)
      requires IsIndexMode(indexMode) && WellFormed(symbols) && InactiveEmpty(symbols, indexMode)
      requires Uniform(symbols, indexMode, skipEnabled, skip, t)
      modifies this
      ensures released == old(released)
      ensures result <==> PresentAll(old(symbols), indexMode, skipEnabled, skip, t)
      ensures result ==> symbols == UnlinkedBelow(old(symbols), indexMode, skipEnabled, skip, t, IndexCount(indexMode))
      ensures !result ==> symbols == old(symbols)
    {
      var count := IndexCount(indexMode);
      var k := 0;
      while k < count
        invariant 0 <= k <= count && released == old(released)
        invariant symbols == UnlinkedBelow(old(symbols), indexMode, skipEnabled, skip, t, k)
        invariant !PresentAll(old(symbols), indexMode, skipEnabled, skip, t) ==>
          symbols == old(symbols) && forall j :: 0 <= j < k ==> skipEnabled && t.Pos(j) == skip
      {
        if skipEnabled && t.Pos(k) == skip {
          k := k + 1;
          continue;
        }
        RoundReady(old(symbols), indexMode, skipEnabled, skip, t, k);
        var unlinked := UnlinkRound(t, k, skipEnabled, skip);
        if !unlinked {
          return false;
        }
        k := k + 1;
      }
      return true;
    }

    /** tryToReleaseSymbol: releases s once its forward sub-indices are all
        empty.  A symbol without an entry is left alone. */
    method TryToReleaseSymbol(s: Symbol)
      requires WellFormed(symbols)
      modifies this
      ensures symbols == old(symbols)
      ensures released == old(released) + (if Unused(symbols, indexMode, s) then {s} else {})
    {
      if s !in symbols {
        return;
      }
      var count := IndexCount(indexMode);
      var k := 0;
      while k < count
        invariant 0 <= k <= count
        invariant forall o :: 0 <= o < k ==> symbols[s][o] == map[]
      {
        if symbols[s][k] != map[] {
          return;
        }
        k := k + 1;
      }
      released := released + {s};
    }

    /** unlink(Triple): removes t from the index and releases those of its
        symbols that became unused. */
    method Unlink(t: Triple) returns (result: bool)
      requires Valid()
      modifies this
      ensures Valid() && symbols.Keys == old(symbols).Keys
      ensures result <==> old(Has(symbols, EAV, t))
      ensures forall x :: Has(symbols, EAV, x) <==> old(Has(symbols, EAV, x)) && x != t
      ensures !result ==> symbols == old(symbols) && released == old(released)
      ensures result ==> released == old(released) + Releasable(symbols, indexMode, Positions(t, 3))
    {
      result := UnlinkTriple(t);
      if !result {
        return;
      }
      TryToReleasePositions(t);
    }

    /** unlinkWithoutReleasing(t) with nothing skipped, on a consistent index. */
    method UnlinkTriple(t: Triple) returns (result: bool)
      requires Valid()
      modifies this
      ensures Valid() && symbols.Keys == old(symbols).Keys && released == old(released)
      ensures result <==> old(Has(symbols, EAV, t))
      ensures forall x :: Has(symbols, EAV, x) <==> old(Has(symbols, EAV, x)) && x != t
      ensures !result ==> symbols == old(symbols)
    {
      ConsistentUniform(symbols, indexMode, t);
      result := UnlinkWithoutReleasing(t, false, Void);
      if result {
        UnlinkFinished(old(symbols), indexMode, t);
      }
    }

    /** The release loop of unlink(Triple): each of t's three symbols. */
    method TryToReleasePositions(t: Triple)
      requires WellFormed(symbols)
      modifies this
      ensures symbols == old(symbols)
      ensures released == old(released) + Releasable(symbols, indexMode, Positions(t, 3))
    {
      var i := 0;
      while i < 3
        invariant 0 <= i <= 3 && symbols == old(symbols)
        invariant released == old(released) + Releasable(symbols, indexMode, Positions(t, i))
      {
        TryToReleaseSymbol(t.Pos(i));
        ReleasableNext(symbols, indexMode, t, i);
        i := i + 1;
      }
    }
  
    /** The innermost loop of unlink(Symbol): every gamma of beta b in
        forward sub-index k of s, unlinked everywhere but in s's entry. */
    method UnlinkGammas(s: Symbol, k: nat, b: Symbol, ghost start: Table, ghost done0: set<Triple>) returns (ghost done: set<Triple>)
      requires IsIndexMode(indexMode) && Consistent(start, indexMode) && k < IndexCount(indexMode)
      requires DroppedOf(start, symbols, indexMode, s, done0) && b in start[s][k]
      modifies this
      ensures released == old(released) && done0 <= done
      ensures DroppedOf(start, symbols, indexMode, s, done)
      ensures forall y :: y in done && y !in done0 ==> Has(start, EAV, y) && y.Pos(k) == s
      ensures forall g :: g in start[s][k][b] ==> Normalized(Triple(s, b, g), k) in done
    {
      done := done0;
      var gammas := symbols[s][k][b];
      while gammas != {}
        invariant gammas <= start[s][k][b] && released == old(released) && done0 <= done
        invariant DroppedOf(start, symbols, indexMode, s, done)
        invariant forall y :: y in done && y !in done0 ==> Has(start, EAV, y) && y.Pos(k) == s
        invariant forall g :: g in start[s][k][b] && g !in gammas ==> Normalized(Triple(s, b, g), k) in done
        decreases gammas
      {
        var g :| g in gammas;
        gammas := gammas - {g};
        var r := Triple(s, b, g);
        assert Has(start, k, r);
        NormalizedForward(r, k);
        var y := Normalized(r, k);
        PresentEverywhere(start, indexMode, y, k);
        IndexReordered(y, k);
        DropStep(start, symbols, indexMode, s, done, y);
        var unlinked := UnlinkWithoutReleasing(y, true, s);
        done := done + {y};
      }
    }

    /** The middle loop of unlink(Symbol): every beta of forward sub-index
        k of s; answers the betas and gammas it marked dirty. */
    method UnlinkBetas(s: Symbol, k: nat, ghost start: Table, ghost done0: set<Triple>) returns (ghost done: set<Triple>, dirty: set<Symbol>)
      requires IsIndexMode(indexMode) && Consistent(start, indexMode) && k < IndexCount(indexMode)
      requires DroppedOf(start, symbols, indexMode, s, done0)
      modifies this
      ensures released == old(released) && done0 <= done
      ensures DroppedOf(start, symbols, indexMode, s, done)
      ensures forall y :: y in done && y !in done0 ==> Has(start, EAV, y) && y.Pos(k) == s
      ensures forall y :: Has(start, EAV, y) && y.Pos(k) == s ==> y in done
      ensures forall d :: d in dirty <==> NeighbourAt(start, s, k, d)
    {
      assert k < |start[s]|;
      done := done0;
      dirty := {};
      var betas := symbols[s][k].Keys;
      while betas != {}
        invariant betas <= start[s][k].Keys && released == old(released) && done0 <= done
        invariant DroppedOf(start, symbols, indexMode, s, done)
        invariant forall y :: y in done && y !in done0 ==> Has(start, EAV, y) && y.Pos(k) == s
        invariant BetasDone(start[s][k], s, k, betas, done)
        invariant BetasDirty(start[s][k], betas, dirty)
        decreases betas
      {
        var b :| b in betas;
        ghost var done1 := done;
        done := UnlinkGammas(s, k, b, start, done);
        BetaStep(start[s][k], s, k, betas, b, done1, done, dirty);
        dirty := dirty + {b} + symbols[s][k][b];
        betas := betas - {b};
      }
      BetasDoneAll(start, indexMode, s, k, done);
    }

    /** The release loop of unlink(Symbol): each dirty symbol, in any order
        (releasing one does not change whether another is unused). */
    method TryToReleaseEach(candidates: set<Symbol>)
      requires WellFormed(symbols)
      modifies this
      ensures symbols == old(symbols)
      ensures released == old(released) + Releasable(symbols, indexMode, candidates)
    {
      var rest := candidates;
      while rest != {}
        invariant rest <= candidates && symbols == old(symbols)
        invariant released == old(released) + Releasable(symbols, indexMode, candidates - rest)
        decreases rest
      {
        var d :| d in rest;
        TryToReleaseSymbol(d);
        rest := rest - {d};
      }
    }

    /** unlink(Symbol): removes every triple involving s (in MonoIndex,
        every triple whose entity is s), releases s and those of its
        neighbours that became unused.  A symbol without an entry is
        released and the answer is false. */
    method UnlinkSymbol(s: Symbol) returns (result: bool)
      requires Valid()
      modifies this
      ensures Valid() && symbols.Keys == old(symbols).Keys
      ensures result <==> s in old(symbols)
      ensures forall x :: Has(symbols, EAV, x) <==> old(Has(symbols, EAV, x)) && !Involves(indexMode, x, s)
      ensures forall d :: d in released <==>
        d in old(released) || d == s || (Neighbour(old(symbols), indexMode, s, d) && Unused(symbols, indexMode, d))
      ensures old(released) + {s} <= released
    {
      if s !in symbols {
        NoEntryUninvolved(symbols, indexMode, s);
        released := released + {s};
        return false;
      }
      ghost var done: set<Triple> := {};
      var dirty: set<Symbol> := {};
      var count := IndexCount(indexMode);
      var k := 0;
      while k < count
        invariant 0 <= k <= count && released == old(released)
        invariant DroppedOf(old(symbols), symbols, indexMode, s, done)
        invariant forall y :: y in done ==> Has(old(symbols), EAV, y) && exists j :: 0 <= j < k && y.Pos(j) == s
        invariant forall y, j :: Has(old(symbols), EAV, y) && 0 <= j < k && y.Pos(j) == s ==> y in done
        invariant forall d :: d in dirty <==> exists j :: 0 <= j < k && NeighbourAt(old(symbols), s, j, d)
      {
        var more;
        done, more := UnlinkBetas(s, k, old(symbols), done);
        dirty := dirty + more;
        k := k + 1;
      }
      forall y
        ensures y in done <==> Has(old(symbols), EAV, y) && Involves(indexMode, y, s)
      {
        if Has(old(symbols), EAV, y) && Involves(indexMode, y, s) {
          assert y.Pos(0) == s || (indexMode != MonoIndex && (y.Pos(1) == s || y.Pos(2) == s));
        }
      }
      ClearedEntry(old(symbols), symbols, indexMode, s, done);
      ReleasedNeighbours(old(symbols), symbols, indexMode, s, dirty);
      TryToReleaseEach(dirty);
      symbols := symbols[s := EmptySubIndices()];
      released := released + {s};
      return true;
    }

    /** tryToReleaseSymbol AS WRITTEN: it asserts that s has an entry. */
    method TryToReleaseSymbolAsWritten(s: Symbol)
      requires WellFormed(symbols) && s in symbols
      modifies this
      ensures symbols == old(symbols)
      ensures released == old(released) + (if Unused(symbols, indexMode, s) then {s} else {})
    {
      var count := IndexCount(indexMode);
      var k := 0;
      while k < count
        invariant 0 <= k <= count
        invariant forall o :: 0 <= o < k ==> symbols[s][o] == map[]
      {
        if symbols[s][k] != map[] {
          return;
        }
        k := k + 1;
      }
      released := released + {s};
    }

    /** query(9, (e, a, Void)): each value of e's attribute a, once. */
    method QueryValues(e: Symbol, a: Symbol) returns (count: nat, values: seq<Symbol>)
      requires WellFormed(symbols)
      ensures count == |values| && NoDuplicates(values)
      ensures forall g :: g in values <==> g in ValuesOf(symbols, e, a)
    {
      var results, seen;
      count, results, seen := Query(symbols, indexMode, 9, Triple(e, a, Void));
      var p := Plan(EAV, 2, 1, GGV, false);
      assert Dispatch(9, indexMode) == Some(p);
      assert Reordered(Triple(e, a, Void), EAV) == Triple(e, a, Void);
      assert forall j :: 0 <= j < |seen| ==> results[j] == Delivered(p, 9, seen[j]);
      values := seq(|results|, (j: int) requires 0 <= j < |results| => results[j][0]);
      forall j | 0 <= j < |seen|
        ensures values[j] == seen[j].value && seen[j] == Triple(e, a, values[j])
      {
        assert seen[j] in seen;
      }
      forall g
        ensures g in values <==> Has(symbols, EAV, Triple(e, a, g))
      {
        if g in values {
          var j :| 0 <= j < |values| && values[j] == g;
          assert seen[j] in seen;
        }
        if Has(symbols, EAV, Triple(e, a, g)) {
          assert Triple(e, a, g) in seen;
          var j :| 0 <= j < |seen| && seen[j] == Triple(e, a, g);
          assert values[j] == g;
        }
      }
    }

    /** query(1, (Void, Holds, s)), the test of scrutinizeExistence. */
    method HolderCount(s: Symbol) returns (count: nat)
      requires Valid()
      ensures count > 0 <==> Held(symbols, indexMode, s)
    {
      var results, seen;
      count, results, seen := Query(symbols, indexMode, 1, Triple(Void, Holds, s));
      if indexMode == MonoIndex {
        assert Dispatch(1, indexMode) == Some(Plan(EAV, 2, 1, VVV, true));
        if Held(symbols, indexMode, s) {
          var x :| Has(symbols, EAV, x);
          assert x in seen;
        }
        if count > 0 {
          assert seen[0] in seen;
        }
      } else {
        assert Dispatch(1, indexMode) == Some(Plan(AVE, 2, 1, GGV, false));
        assert Reordered(Triple(Void, Holds, s), AVE) == Triple(Holds, s, Void);
        if Held(symbols, indexMode, s) {
          var h :| Has(symbols, EAV, Triple(h, Holds, s));
          PresentEverywhere(symbols, indexMode, Triple(h, Holds, s), AVE);
          assert Reordered(Triple(h, Holds, s), AVE) in seen;
        }
        if count > 0 {
          var x := seen[0];
          assert x in seen;
          NormalizedReordered(x, AVE);
          PresentEverywhere(symbols, indexMode, Normalized(x, AVE), AVE);
          assert Has(symbols, EAV, Triple(x.value, Holds, s));
        }
      }
    }

    /** getUncertain: whether e's attribute a has exactly one value.  The
        out-value is the last value reported, or `gamma` when there is none. */
    method GetUncertain(e: Symbol, a: Symbol, gamma: Symbol) returns (found: bool, value: Symbol)
      requires WellFormed(symbols)
      ensures found <==> |ValuesOf(symbols, e, a)| == 1
      ensures found ==> ValuesOf(symbols, e, a) == {value}
      ensures ValuesOf(symbols, e, a) == {} ==> value == gamma
      ensures ValuesOf(symbols, e, a) != {} ==> value in ValuesOf(symbols, e, a)
    {
      var count, values := QueryValues(e, a);
      DistinctCount(values, ValuesOf(symbols, e, a));
      value := if |values| > 0 then values[|values| - 1] else gamma;
      found := count == 1;
      if ValuesOf(symbols, e, a) != {} {
        var g :| g in ValuesOf(symbols, e, a);
        assert g in values;
      }
    }

    /** The query callback of setSolitary: a value equal to v that may stay
        cancels the link, every other value is marked dirty. */
    method SortValues(values: seq<Symbol>, v: Symbol, linkVoid: bool) returns (toLink: bool, dirty: set<Symbol>)
      ensures toLink <==> (linkVoid || v != Void) && v !in values
      ensures forall g :: g in dirty <==> g in values && !(g == v && (linkVoid || v != Void))
    {
      toLink := linkVoid || v != Void;
      dirty := {};
      for i := 0 to |values|
        invariant toLink <==> (linkVoid || v != Void) && v !in values[..i]
        invariant forall g :: g in dirty <==> g in values[..i] && !(g == v && (linkVoid || v != Void))
      {
        var g := values[i];
        assert values[..i + 1] == values[..i] + [g];
        if g == v && (linkVoid || g != Void) {
          toLink := false;
        } else {
          dirty := dirty + {g};
        }
      }
      assert values[..|values|] == values;
    }

    /** The link and the unlinks of setSolitary. */
    method ReplaceValues(t: Triple, keep: bool, toLink: bool, dirty: set<Symbol>)
      requires Valid() && (toLink <==> keep && !Has(symbols, EAV, t))
      requires forall g :: g in dirty <==> Has(symbols, EAV, Triple(t.entity, t.attribute, g)) && !(g == t.value && keep)
      modifies this
      ensures Valid() && released == old(released)
      ensures forall x :: Has(symbols, EAV, x) <==>
        if x.entity == t.entity && x.attribute == t.attribute then x == t && keep else old(Has(symbols, EAV, x))
      ensures symbols.Keys == old(symbols).Keys + (if toLink then Positions(t, IndexCount(indexMode)) else {})
    {
      if toLink {
        var linked := Link(t);
      }
      ghost var s1 := symbols;
      UnlinkValues(t.entity, t.attribute, dirty);
      SolitaryHas(old(symbols), s1, symbols, t, keep, toLink, dirty);
    }

    /** The unlink loop of setSolitary: (e, a, g) for each g of `values`. */
    method UnlinkValues(e: Symbol, a: Symbol, values: set<Symbol>)
      requires Valid()
      modifies this
      ensures Valid() && symbols.Keys == old(symbols).Keys && released == old(released)
      ensures forall x :: Has(symbols, EAV, x) <==>
        old(Has(symbols, EAV, x)) && !(x.entity == e && x.attribute == a && x.value in values)
    {
      var rest := values;
      while rest != {}
        invariant rest <= values && Valid() && symbols.Keys == old(symbols).Keys && released == old(released)
        invariant forall x :: Has(symbols, EAV, x) <==>
          old(Has(symbols, EAV, x)) && !(x.entity == e && x.attribute == a && x.value in values - rest)
        decreases rest
      {
        var g :| g in rest;
        var unlinked := UnlinkTriple(Triple(e, a, g));
        rest := rest - {g};
      }
    }

    /** setSolitary(t, linkVoid): afterwards t's entity has t's value as its
        only value of t's attribute, or no value when the value is Void and
        linkVoid is off.  The displaced values, the attribute and (without
        linkVoid) the entity are released when unused. */
    method SetSolitary(t: Triple, linkVoid: bool)
      requires Valid()
      modifies this
      ensures Valid()
      ensures forall x :: Has(symbols, EAV, x) <==>
        if x.entity == t.entity && x.attribute == t.attribute then x == t && (linkVoid || t.value != Void)
        else old(Has(symbols, EAV, x))
      ensures symbols.Keys == old(symbols).Keys +
        (if (linkVoid || t.value != Void) && !old(Has(symbols, EAV, t)) then Positions(t, IndexCount(indexMode)) else {})
      ensures released == old(released) + Releasable(symbols, indexMode,
        Displaced(old(symbols), t, linkVoid) + {t.attribute} + (if linkVoid then {} else {t.entity}))
    {
      var keep := linkVoid || t.value != Void;
      var count, values := QueryValues(t.entity, t.attribute);
      var toLink, dirty := SortValues(values, t.value, linkVoid);
      ghost var s0 := symbols;
      ReplaceValues(t, keep, toLink, dirty);
      ghost var candidates := Displaced(s0, t, linkVoid) + {t.attribute} + (if linkVoid then {} else {t.entity});
      assert dirty == Displaced(s0, t, linkVoid);
      if !linkVoid {
        dirty := dirty + {t.entity};
      }
      dirty := dirty + {t.attribute};
      assert dirty == candidates;
      TryToReleaseEach(dirty);
    }

    /** scrutinizeExistence(s): unlinks s unless something holds it, then in
        the same way every symbol an unlinked symbol held, largest first.
        The ghost answer lists the symbols unlinked. */
    method ScrutinizeExistence(s: Symbol) returns (ghost unlinked: set<Symbol>)
      requires Valid()
      modifies this
      ensures Valid() && symbols.Keys == old(symbols).Keys
      ensures Held(old(symbols), indexMode, s) ==> symbols == old(symbols) && released == old(released) && unlinked == {}
      ensures !Held(old(symbols), indexMode, s) ==> s in unlinked
      ensures Scrutiny(old(symbols), symbols, indexMode, s, unlinked, {})
      ensures UnlinkedUnheld(old(symbols), indexMode, unlinked)
      ensures old(released) + unlinked <= released
    {
      ghost var start := symbols;
      ghost var first := true;
      unlinked := {};
      var worklist: set<Symbol> := {s};
      while worklist != {}
        invariant Valid() && symbols.Keys == start.Keys && old(released) + unlinked <= released
        invariant Scrutiny(start, symbols, indexMode, s, unlinked, worklist)
        invariant first ==> worklist == {s} && unlinked == {} && symbols == start && released == old(released)
        invariant !first && Held(start, indexMode, s) ==> worklist == {} && unlinked == {} && symbols == start && released == old(released)
        invariant !first && !Held(start, indexMode, s) ==> s in unlinked
        decreases |Stored(symbols)|, |worklist|
      {
        var sym, held;
        sym, held, worklist, unlinked := ScrutinizeRound(s, start, unlinked, worklist);
        first := false;
      }
    }

    /** One round of scrutinizeExistence: the largest symbol of the worklist
        is popped, passed over when something holds it and unlinked
        otherwise. */
    method ScrutinizeRound(s: Symbol, ghost start: Table, ghost U: set<Symbol>, W: set<Symbol>)
      returns (sym: Symbol, held: bool, W': set<Symbol>, ghost U': set<Symbol>)
      requires Valid() && W != {} && Scrutiny(start, symbols, indexMode, s, U, W)
      modifies this
      ensures Valid() && symbols.Keys == old(symbols).Keys
      ensures Scrutiny(start, symbols, indexMode, s, U', W')
      ensures sym in W && forall y :: y in W ==> y <= sym
      ensures held <==> Held(old(symbols), indexMode, sym)
      ensures held ==> W' == W - {sym} && U' == U && symbols == old(symbols) && released == old(released)
      ensures !held ==> U' == U + {sym} && old(released) + {sym} <= released
      ensures |Stored(symbols)| <= |Stored(old(symbols))|
      ensures |Stored(symbols)| == |Stored(old(symbols))| ==> W' == W - {sym}
    {
      LargestExists(W);
      sym :| sym in W && forall y :: y in W ==> y <= sym;
      var holders := HolderCount(sym);
      held := holders > 0;
      if held {
        ScrutinySkip(start, symbols, indexMode, s, U, W, sym);
        W', U' := W - {sym}, U;
      } else {
        var entry;
        W', entry := ScrutinizeStep(s, sym, start, U, W);
        U' := U + {sym};
      }
    }

    /** The symbols `s` holds, as scrutinizeExistence queries them. */
    method HeldBy(s: Symbol) returns (held: set<Symbol>)
      requires WellFormed(symbols)
      ensures forall c :: c in held <==> Has(symbols, EAV, Triple(s, Holds, c))
    {
      var count, children := QueryValues(s, Holds);
      held := set c | c in children;
    }

    /** One unheld symbol of scrutinizeExistence: the symbols it holds are
        queued and it is unlinked.  `entry` is the result of that unlink,
        which the source asserts: it is false for a symbol without an entry,
        and the model carries on as unlink(symbol) leaves it. */
    method ScrutinizeStep(s: Symbol, sym: Symbol, ghost start: Table, ghost U: set<Symbol>, W: set<Symbol>)
      returns (W': set<Symbol>, entry: bool)
      requires Valid() && sym in W && !Held(symbols, indexMode, sym) && Scrutiny(start, symbols, indexMode, s, U, W)
      modifies this
      ensures entry <==> sym in old(symbols)
      ensures Valid() && symbols.Keys == old(symbols).Keys && old(released) + {sym} <= released
      ensures Scrutiny(start, symbols, indexMode, s, U + {sym}, W')
      ensures |Stored(symbols)| <= |Stored(old(symbols))|
      ensures |Stored(symbols)| == |Stored(old(symbols))| ==> W' == W - {sym}
    {
      ghost var table := symbols;
      var held := HeldBy(sym);
      W' := W - {sym} + held;
      entry := UnlinkSymbol(sym);
      ScrutinyUnlink(start, table, symbols, indexMode, s, U, W, sym, held);
      StoredShrinks(table, symbols, indexMode, sym, held);
    }
}
}
