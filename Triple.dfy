/** Triples and the orientations of the triple index (Ontology/Triple.hpp).

    A triple (entity, attribute, value) is kept under up to six
    orientations.  Orientation o stores the triple rotated by `Reordered(t, o)`
    as alpha -> beta -> {gamma}: every symbol alpha has one sub-index per
    orientation, mapping each beta to the non-empty set of its gammas.

    Here one sub-index is its contents, a map from beta to the set of gammas;
    the nested blob sets that hold it (and their symbols) are modelled
    separately by the Containers module. */
module Triples {

  type Symbol = nat

  /** Ordinals of the predefined symbols used by the index. */
  const Void: Symbol := 0
  const Holds: Symbol := 3
  const BlobType: Symbol := 41

  datatype Triple = Triple(entity: Symbol, attribute: Symbol, value: Symbol)
  {
    /** Position i of the triple: 0 entity, 1 attribute, 2 value. */
    function Pos(i: nat): Symbol
    {
      if i == 0 then entity else if i == 1 then attribute else value
    }
  }

  /** The triple with position i set to s. */
  function With(t: Triple, i: nat, s: Symbol): (r: Triple)
    requires i < 3
    ensures r.Pos(i) == s
    ensures forall k :: k < 3 && k != i ==> r.Pos(k) == t.Pos(k)
  {
    if i == 0 then t.(entity := s) else if i == 1 then t.(attribute := s) else t.(value := s)
  }

  // ---------------------------------------------------------------------
  // Orientations.

  const EAV: nat := 0
  const AVE: nat := 1
  const VEA: nat := 2
  const EVA: nat := 3
  const AEV: nat := 4
  const VAE: nat := 5

  const ReorderedAlpha: seq<nat> := [0, 1, 2, 0, 1, 2]
  const ReorderedBeta: seq<nat> := [1, 2, 0, 2, 0, 1]
  const ReorderedGamma: seq<nat> := [2, 0, 1, 1, 2, 0]
  const NormalizedAlpha: seq<nat> := [0, 2, 1, 0, 1, 2]
  const NormalizedBeta: seq<nat> := [1, 0, 2, 2, 0, 1]
  const NormalizedGamma: seq<nat> := [2, 1, 0, 1, 2, 0]

  /** The triple as orientation o stores it: (alpha, beta, gamma). */
  function Reordered(t: Triple, o: nat): Triple
    requires o < 6
  {
    Triple(t.Pos(ReorderedAlpha[o]), t.Pos(ReorderedBeta[o]), t.Pos(ReorderedGamma[o]))
  }

  /** The triple an (alpha, beta, gamma) of orientation o stands for. */
  function Normalized(r: Triple, o: nat): Triple
    requires o < 6
  {
    Triple(r.Pos(NormalizedAlpha[o]), r.Pos(NormalizedBeta[o]), r.Pos(NormalizedGamma[o]))
  }

  /** Normalizing undoes reordering and the other way round; orientation
      EAV leaves a triple as it is. */
  lemma NormalizedReordered(t: Triple, o: nat)
    requires o < 6
    ensures Normalized(Reordered(t, o), o) == t
    ensures Reordered(Normalized(t, o), o) == t
    ensures Reordered(t, EAV) == t && Normalized(t, EAV) == t
  {
  }

  /** What the forward orientation s < 3 of a triple stores in the
      sub-index of its alpha: beta and gamma follow alpha cyclically. */
  function ForwardIndex(t: Triple, s: nat): Triple
    requires s < 3
  {
    Triple(t.Pos(s), t.Pos((s + 1) % 3), t.Pos((s + 2) % 3))
  }

  /** What the inverse orientation s + 3 stores: beta and gamma swapped. */
  function ReverseIndex(t: Triple, s: nat): Triple
    requires s < 3
  {
    Triple(t.Pos(s), t.Pos((s + 2) % 3), t.Pos((s + 1) % 3))
  }

  /** The rotations used when linking agree with the reorder table. */
  lemma IndexReordered(t: Triple, s: nat)
    requires s < 3
    ensures ForwardIndex(t, s) == Reordered(t, s)
    ensures ReverseIndex(t, s) == Reordered(t, s + 3)
  {
  }

  /** An inverse orientation has the alpha of its forward partner and the
      beta and gamma swapped. */
  lemma InverseSwaps(t: Triple, s: nat)
    requires s < 3
    ensures Reordered(t, s + 3) == Triple(Reordered(t, s).entity, Reordered(t, s).value, Reordered(t, s).attribute)
  {
  }

  // ---------------------------------------------------------------------
  // The index: per alpha six sub-indices beta -> {gamma}.

  type SubIndex = map<Symbol, set<Symbol>>
  type Table = map<Symbol, seq<SubIndex>>

  /** The sub-indices of a new alpha entry (Symbol[6]). */
  function EmptySubIndices(): (r: seq<SubIndex>)
    ensures |r| == 6 && forall o :: 0 <= o < 6 ==> r[o] == map[]
  {
    [map[], map[], map[], map[], map[], map[]]
  }

  /** Every alpha has six sub-indices and every gamma set is non-empty. */
  ghost predicate WellFormed(table: Table)
  {
    forall a | a in table :: |table[a]| == 6 &&
      forall o, b | 0 <= o < 6 && b in table[a][o] :: table[a][o][b] != {}
  }

  /** Orientation o holds (alpha, beta, gamma) = r. */
  ghost predicate Has(table: Table, o: nat, r: Triple)
  {
    r.entity in table && o < |table[r.entity]| && r.attribute in table[r.entity][o] &&
    r.value in table[r.entity][o][r.attribute]
  }

  /** The table with r added to orientation o (linkInSubIndex). */
  function Linked(table: Table, o: nat, r: Triple): Table
    requires r.entity in table && o < |table[r.entity]|
  {
    var sub := table[r.entity][o];
    var gammas := if r.attribute in sub then sub[r.attribute] else {};
    var sub': SubIndex := sub[r.attribute := gammas + {r.value}];
    table[r.entity := table[r.entity][o := sub']]
  }

  /** The table with r taken out of orientation o (unlinkInSubIndex); a
      gamma set that becomes empty is removed with its beta key. */
  function Unlinked(table: Table, o: nat, r: Triple): Table
    requires r.entity in table && o < |table[r.entity]|
  {
    var sub := table[r.entity][o];
    if r.attribute !in sub || r.value !in sub[r.attribute] then table
    else
      var rest := sub[r.attribute] - {r.value};
      var sub': SubIndex := if rest == {} then sub - {r.attribute} else sub[r.attribute := rest];
      table[r.entity := table[r.entity][o := sub']]
  }

  lemma HasLinked(table: Table, o: nat, r: Triple)
    requires r.entity in table && o < |table[r.entity]|
    ensures Linked(table, o, r).Keys == table.Keys
    ensures forall a | a in table :: |Linked(table, o, r)[a]| == |table[a]|
    ensures forall p, x :: Has(Linked(table, o, r), p, x) <==> Has(table, p, x) || (p == o && x == r)
  {
  }

  lemma LinkedWellFormed(table: Table, o: nat, r: Triple)
    requires WellFormed(table) && r.entity in table && o < 6
    ensures WellFormed(Linked(table, o, r))
  {
  }

  /** Linking what is present changes nothing. */
  lemma LinkedPresent(table: Table, o: nat, r: Triple)
    requires Has(table, o, r)
    ensures Linked(table, o, r) == table
  {
    var sub := table[r.entity][o];
    assert sub[r.attribute] + {r.value} == sub[r.attribute];
    assert sub[r.attribute := sub[r.attribute] + {r.value}] == sub;
    assert table[r.entity][o := sub] == table[r.entity];
  }

  lemma HasUnlinked(table: Table, o: nat, r: Triple)
    requires r.entity in table && o < |table[r.entity]|
    ensures Unlinked(table, o, r).Keys == table.Keys
    ensures forall a | a in table :: |Unlinked(table, o, r)[a]| == |table[a]|
    ensures forall p, x :: Has(Unlinked(table, o, r), p, x) <==> Has(table, p, x) && !(p == o && x == r)
  {
    var sub := table[r.entity][o];
    if r.attribute in sub && r.value in sub[r.attribute] {
      var rest := sub[r.attribute] - {r.value};
      forall p, x | Has(table, p, x) && !(p == o && x == r) && p == o && x.entity == r.entity && x.attribute == r.attribute
        ensures x.value in rest
      {
      }
    }
  }

  lemma UnlinkedWellFormed(table: Table, o: nat, r: Triple)
    requires WellFormed(table) && r.entity in table && o < 6
    ensures WellFormed(Unlinked(table, o, r))
  {
  }

  /** Removing the last gamma of a beta removes the beta from the
      sub-index as well. */
  lemma UnlinkedErasesBeta(table: Table, o: nat, r: Triple)
    requires r.entity in table && o < |table[r.entity]|
    requires r.attribute in table[r.entity][o] && table[r.entity][o][r.attribute] == {r.value}
    ensures r.attribute !in Unlinked(table, o, r)[r.entity][o]
    ensures forall b :: b in Unlinked(table, o, r)[r.entity][o] <==> b in table[r.entity][o] && b != r.attribute
  {
    assert table[r.entity][o][r.attribute] - {r.value} == {};
  }

  /** The triple a forward (alpha, beta, gamma) of sub-index k stands for
      has alpha at position k, beta and gamma at the two positions after. */
  lemma NormalizedForward(r: Triple, k: nat)
    requires k < 3
    ensures ForwardIndex(Normalized(r, k), k) == r
    ensures Normalized(r, k).Pos(k) == r.entity
    ensures Normalized(r, k).Pos((k + 1) % 3) == r.attribute && Normalized(r, k).Pos((k + 2) % 3) == r.value
  {
    NormalizedReordered(r, k);
    IndexReordered(Normalized(r, k), k);
  }

  /** The position of a triple that orientation o uses as alpha: o for a
      forward orientation, o - 3 for its inverse. */
  function AlphaPos(o: nat): (p: nat)
    requires o < 6
    ensures p < 3 && (p == o || p + 3 == o)
  {
    if o < 3 then o else o - 3
  }

  lemma AlphaOf(t: Triple, o: nat)
    requires o < 6
    ensures Reordered(t, o).entity == t.Pos(AlphaPos(o))
  {
  }

  /** Orientation o holds exactly the triples of orientation EAV, reordered. */
  ghost predicate Mirrors(table: Table, o: nat)
    requires o < 6
  {
    forall r :: Has(table, o, r) <==> Has(table, EAV, Normalized(r, o))
  }

  /** An index over the first `mode` orientations (1, 3 or 6): the active
      orientations mirror EAV and the others are empty. */
  ghost predicate Consistent(table: Table, mode: nat)
  {
    WellFormed(table) && mode <= 6 &&
    (forall o :: 0 < o < mode ==> Mirrors(table, o)) &&
    (forall a, o :: a in table && mode <= o < 6 ==> table[a][o] == map[])
  }

  // ---------------------------------------------------------------------
  // Search routines.  Each returns its count and the triples its callback
  // sees, in the order seen; no triple is seen twice.

  ghost predicate NoDuplicates<T>(s: seq<T>)
  {
    forall i, j :: 0 <= i < j < |s| ==> s[i] != s[j]
  }

  lemma AppendDistinct<T>(s: seq<T>, t: seq<T>)
    requires NoDuplicates(s) && NoDuplicates(t)
    requires forall x :: x in t ==> x !in s
    ensures NoDuplicates(s + t)
  {
    forall i, j | 0 <= i < j < |s + t|
      ensures (s + t)[i] != (s + t)[j]
    {
      if j >= |s| && i < |s| {
        assert (s + t)[j] in t;
      }
    }
  }

  /** The callback loop over a set of symbols: `base` with position i set
      to each of `values`, once each. */
  method EmitEach(base: Triple, i: nat, values: set<Symbol>) returns (emitted: seq<Triple>)
    requires i < 3
    ensures |emitted| == |values| && NoDuplicates(emitted)
    ensures forall x :: x in emitted <==> x.Pos(i) in values && x == With(base, i, x.Pos(i))
  {
    emitted := [];
    var remaining := values;
    while remaining != {}
      invariant remaining <= values
      invariant |emitted| + |remaining| == |values|
      invariant NoDuplicates(emitted)
      invariant forall x :: x in emitted <==> x.Pos(i) in values - remaining && x == With(base, i, x.Pos(i))
      decreases |remaining|
    {
      var v :| v in remaining;
      var next := With(base, i, v);
      assert next !in emitted;
      AppendDistinct(emitted, [next]);
      emitted := emitted + [next];
      remaining := remaining - {v};
    }
  }

  /** searchGGG: q itself, when orientation o holds it. */
  method SearchGGG(table: Table, o: nat, q: Triple) returns (count: nat, emitted: seq<Triple>)
    requires WellFormed(table) && o < 6
    ensures count == |emitted| && NoDuplicates(emitted)
    ensures forall x :: x in emitted <==> x == q && Has(table, o, q)
  {
    count, emitted := 0, [];
    if q.entity !in table {
      return;
    }
    var beta := table[q.entity][o];
    if q.attribute !in beta {
      return;
    }
    if q.value !in beta[q.attribute] {
      return;
    }
    count, emitted := 1, [q];
  }

  /** searchGGV: every gamma of (alpha, beta) = (q.entity, q.attribute);
      the count is the size of the gamma set. */
  method SearchGGV(table: Table, o: nat, q: Triple) returns (count: nat, emitted: seq<Triple>)
    requires WellFormed(table) && o < 6
    ensures count == |emitted| && NoDuplicates(emitted)
    ensures forall x :: x in emitted <==> Has(table, o, x) && x.entity == q.entity && x.attribute == q.attribute
  {
    count, emitted := 0, [];
    if q.entity !in table {
      return;
    }
    var beta := table[q.entity][o];
    if q.attribute !in beta {
      return;
    }
    var gamma := beta[q.attribute];
    emitted := EmitEach(q, 2, gamma);
    count := |gamma|;
  }

  /** searchGVV: every (beta, gamma) pair of alpha = q.entity; the count
      adds up the sizes of the gamma sets. */
  method SearchGVV(table: Table, o: nat, q: Triple) returns (count: nat, emitted: seq<Triple>)
    requires WellFormed(table) && o < 6
    ensures count == |emitted| && NoDuplicates(emitted)
    ensures forall x :: x in emitted <==> Has(table, o, x) && x.entity == q.entity
  {
    count, emitted := 0, [];
    if q.entity !in table {
      return;
    }
    var beta := table[q.entity][o];
    var remaining := beta.Keys;
    while remaining != {}
      invariant remaining <= beta.Keys
      invariant count == |emitted| && NoDuplicates(emitted)
      invariant forall x :: x in emitted <==> Has(table, o, x) && x.entity == q.entity && x.attribute !in remaining
      decreases |remaining|
    {
      var b :| b in remaining;
      var gamma := beta[b];
      var found := EmitEach(Triple(q.entity, b, q.value), 2, gamma);
      AppendDistinct(emitted, found);
      emitted := emitted + found;
      count := count + |gamma|;
      remaining := remaining - {b};
    }
  }

  /** searchGIV: every distinct gamma of alpha = q.entity over all its
      betas, once each, written to position 2. */
  method SearchGIV(table: Table, o: nat, q: Triple) returns (count: nat, emitted: seq<Triple>)
    requires WellFormed(table) && o < 6
    ensures count == |emitted| && NoDuplicates(emitted)
    ensures forall x :: x in emitted <==>
      x == With(q, 2, x.value) && exists b :: Has(table, o, Triple(q.entity, b, x.value))
  {
    count, emitted := 0, [];
    if q.entity !in table {
      return;
    }
    var beta := table[q.entity][o];
    var result: set<Symbol> := {};
    var remaining := beta.Keys;
    while remaining != {}
      invariant remaining <= beta.Keys
      invariant forall g :: g in result <==> exists b :: b in beta && b !in remaining && g in beta[b]
      decreases |remaining|
    {
      var b :| b in remaining;
      result := result + beta[b];
      remaining := remaining - {b};
    }
    emitted := EmitEach(q, 2, result);
    count := |result|;
    forall x | x in emitted
      ensures exists b :: Has(table, o, Triple(q.entity, b, x.value))
    {
      var b :| b in beta && x.value in beta[b];
      assert Has(table, o, Triple(q.entity, b, x.value));
    }
  }

  /** searchGVI: every beta of alpha = q.entity, written to position 1;
      the count is the number of betas. */
  method SearchGVI(table: Table, o: nat, q: Triple) returns (count: nat, emitted: seq<Triple>)
    requires WellFormed(table) && o < 6
    ensures count == |emitted| && NoDuplicates(emitted)
    ensures forall x :: x in emitted <==>
      x == With(q, 1, x.attribute) && exists g :: Has(table, o, Triple(q.entity, x.attribute, g))
  {
    count, emitted := 0, [];
    if q.entity !in table {
      return;
    }
    var beta := table[q.entity][o];
    emitted := EmitEach(q, 1, beta.Keys);
    count := |beta|;
    forall x | x in emitted
      ensures exists g :: Has(table, o, Triple(q.entity, x.attribute, g))
    {
      var g :| g in beta[x.attribute];
      assert Has(table, o, Triple(q.entity, x.attribute, g));
    }
  }

  /** searchVII: every alpha of the table, written to position 0; the
      count is the number of alphas. */
  method SearchVII(table: Table, o: nat, q: Triple) returns (count: nat, emitted: seq<Triple>)
    ensures count == |emitted| && NoDuplicates(emitted)
    ensures forall x :: x in emitted <==> x == With(q, 0, x.entity) && x.entity in table
  {
    emitted := EmitEach(q, 0, table.Keys);
    count := |table|;
  }

  /** searchVVI: every (alpha, beta) pair of orientation o, written to
      positions 0 and 1; the count adds up the numbers of betas. */
  method SearchVVI(table: Table, o: nat, q: Triple) returns (count: nat, emitted: seq<Triple>)
    requires WellFormed(table) && o < 6
    ensures count == |emitted| && NoDuplicates(emitted)
    ensures forall x :: x in emitted <==>
      x.value == q.value && exists g :: Has(table, o, Triple(x.entity, x.attribute, g))
  {
    count, emitted := 0, [];
    var remaining := table.Keys;
    while remaining != {}
      invariant remaining <= table.Keys
      invariant count == |emitted| && NoDuplicates(emitted)
      invariant forall x :: x in emitted <==>
        x.value == q.value && x.entity !in remaining && exists g :: Has(table, o, Triple(x.entity, x.attribute, g))
      decreases |remaining|
    {
      var a :| a in remaining;
      var n, found := SearchGVI(table, o, With(q, 0, a));
      AppendDistinct(emitted, found);
      emitted := emitted + found;
      count := count + n;
      remaining := remaining - {a};
    }
  }

  /** searchVVV: every (alpha, beta, gamma) of orientation o; the count
      adds up the sizes of all gamma sets. */
  method SearchVVV(table: Table, o: nat, q: Triple) returns (count: nat, emitted: seq<Triple>)
    requires WellFormed(table) && o < 6
    ensures count == |emitted| && NoDuplicates(emitted)
    ensures forall x :: x in emitted <==> Has(table, o, x)
  {
    count, emitted := 0, [];
    var remaining := table.Keys;
    while remaining != {}
      invariant remaining <= table.Keys
      invariant count == |emitted| && NoDuplicates(emitted)
      invariant forall x :: x in emitted <==> Has(table, o, x) && x.entity !in remaining
      decreases |remaining|
    {
      var a :| a in remaining;
      var n, found := SearchGVV(table, o, With(q, 0, a));
      AppendDistinct(emitted, found);
      emitted := emitted + found;
      count := count + n;
      remaining := remaining - {a};
    }
  }

  // ---------------------------------------------------------------------
  // The query dispatcher.

  datatype Option<T> = None | Some(value: T)

  /** The eight search routines, named by what they do with alpha, beta
      and gamma: G given, V varying (reported), I ignored. */
  datatype Routine = GGG | GGV | GVV | GIV | GVI | VII | VVI | VVV

  datatype QueryMethod = QueryMethod(subIndex: nat, pos: nat, size: nat, routine: Option<Routine>)

  /** The dispatch table, indexed by mode = e + 3 a + 9 v, where each of
      e, a, v is 0 (Match), 1 (Vary) or 2 (Ignore). */
  function Lookup(mode: nat): QueryMethod
    requires mode < 27
  {
    match mode
    case 0 => QueryMethod(EAV, 0, 0, Some(GGG))
    case 1 => QueryMethod(AVE, 2, 1, Some(GGV))
    case 2 => QueryMethod(AVE, 0, 0, None)
    case 3 => QueryMethod(VEA, 2, 1, Some(GGV))
    case 4 => QueryMethod(VEA, 1, 2, Some(GVV))
    case 5 => QueryMethod(VAE, 1, 1, Some(GVI))
    case 6 => QueryMethod(VEA, 0, 0, None)
    case 7 => QueryMethod(VEA, 1, 1, Some(GVI))
    case 8 => QueryMethod(VEA, 0, 0, None)
    case 9 => QueryMethod(EAV, 2, 1, Some(GGV))
    case 10 => QueryMethod(AVE, 1, 2, Some(GVV))
    case 11 => QueryMethod(AVE, 1, 1, Some(GVI))
    case 12 => QueryMethod(EAV, 1, 2, Some(GVV))
    case 13 => QueryMethod(EAV, 0, 3, Some(VVV))
    case 14 => QueryMethod(AVE, 0, 2, Some(VVI))
    case 15 => QueryMethod(EVA, 1, 1, Some(GVI))
    case 16 => QueryMethod(VEA, 0, 2, Some(VVI))
    case 17 => QueryMethod(VEA, 0, 1, Some(VII))
    case 18 => QueryMethod(EAV, 0, 0, None)
    case 19 => QueryMethod(AEV, 1, 1, Some(GVI))
    case 20 => QueryMethod(AVE, 0, 0, None)
    case 21 => QueryMethod(EAV, 1, 1, Some(GVI))
    case 22 => QueryMethod(EAV, 0, 2, Some(VVI))
    case 23 => QueryMethod(AVE, 0, 1, Some(VII))
    case 24 => QueryMethod(EAV, 0, 0, None)
    case 25 => QueryMethod(EAV, 0, 1, Some(VII))
    case _ => QueryMethod(EAV, 0, 0, None)
  }

  const Match: nat := 0
  const Vary: nat := 1
  const Ignore: nat := 2

  /** What a mode asks of triple position k. */
  function Digit(mode: nat, k: nat): nat
  {
    if k == 0 then mode % 3 else if k == 1 then (mode / 3) % 3 else (mode / 9) % 3
  }

  /** What a routine does with alpha (j = 0), beta (j = 1) and gamma (j = 2). */
  function Pattern(r: Routine, j: nat): nat
  {
    match r
    case GGG => Match
    case GGV => if j < 2 then Match else Vary
    case GVV => if j < 1 then Match else Vary
    case GIV => if j == 0 then Match else if j == 1 then Ignore else Vary
    case GVI => if j == 0 then Match else if j == 1 then Vary else Ignore
    case VII => if j == 0 then Vary else Ignore
    case VVI => if j < 2 then Vary else Ignore
    case VVV => Vary
  }

  function CountDigits(mode: nat, d: nat): nat
  {
    (if Digit(mode, 0) == d then 1 else 0) + (if Digit(mode, 1) == d then 1 else 0) +
    (if Digit(mode, 2) == d then 1 else 0)
  }

  /** The table is complete and right for `mode`: a mode has no routine
      exactly when it ignores something and varies nothing; otherwise the
      routine's pattern is the mode read in the order of its orientation, and
      the reported positions pos .. pos + size - 1 are the varying ones,
      after the matched ones. */
  ghost predicate LookupRight(mode: nat)
    requires mode < 27
  {
    (Lookup(mode).routine.None? <==> CountDigits(mode, Vary) == 0 && CountDigits(mode, Ignore) > 0) &&
    (Lookup(mode).routine.Some? ==>
      var m := Lookup(mode);
      m.subIndex < 6 && m.pos + m.size <= 3 && m.size == CountDigits(mode, Vary) &&
      (m.size > 0 ==> m.pos == CountDigits(mode, Match)) &&
      Pattern(m.routine.value, 0) == Digit(mode, ReorderedAlpha[m.subIndex]) &&
      Pattern(m.routine.value, 1) == Digit(mode, ReorderedBeta[m.subIndex]) &&
      Pattern(m.routine.value, 2) == Digit(mode, ReorderedGamma[m.subIndex]))
  }

  /** LookupRight holds for the modes lo .. hi - 1. */
  ghost predicate RowsRight(lo: nat, hi: nat)
    requires hi <= 27
    decreases hi - lo
  {
    lo >= hi || (LookupRight(lo) && RowsRight(lo + 1, hi))
  }

  lemma {:induction false} RowsRightAt(lo: nat, hi: nat, mode: nat)
    requires hi <= 27 && RowsRight(lo, hi) && lo <= mode < hi
    ensures LookupRight(mode)
    decreases hi - lo
  {
    if lo < mode {
      RowsRightAt(lo + 1, hi, mode);
    }
  }

  /** The rows whose value is Match, Vary and Ignore (checked row by row). */
  lemma LookupValueMatch()
    ensures RowsRight(0, 9)
  {
  }

  lemma LookupValueVary()
    ensures RowsRight(9, 18)
  {
  }

  lemma LookupValueIgnoreAttributeMatch()
    ensures RowsRight(18, 21)
  {
  }

  lemma LookupValueIgnoreAttributeVary()
    ensures RowsRight(21, 24)
  {
  }

  lemma LookupValueIgnoreAttributeIgnore()
    ensures RowsRight(24, 27)
  {
  }

  /** A mode has no routine exactly when it ignores some position and
      varies none; otherwise the table's routine reads the mode's positions
      in the order of its orientation as its pattern, and it reports the
      varying positions, which come after the matched ones. */
  lemma LookupShape(mode: nat)
    requires mode < 27
    ensures Lookup(mode).routine.None? <==> CountDigits(mode, Vary) == 0 && CountDigits(mode, Ignore) > 0
    ensures Lookup(mode).routine.Some? ==>
      (var m := Lookup(mode);
       m.subIndex < 6 && m.pos + m.size <= 3 && m.size == CountDigits(mode, Vary) &&
       (m.size > 0 ==> m.pos == CountDigits(mode, Match)) &&
       Pattern(m.routine.value, 0) == Digit(mode, ReorderedAlpha[m.subIndex]) &&
       Pattern(m.routine.value, 1) == Digit(mode, ReorderedBeta[m.subIndex]) &&
       Pattern(m.routine.value, 2) == Digit(mode, ReorderedGamma[m.subIndex]))
  {
    if mode < 9 {
      LookupValueMatch();
      RowsRightAt(0, 9, mode);
    } else if mode < 18 {
      LookupValueVary();
      RowsRightAt(9, 18, mode);
    } else if mode < 21 {
      LookupValueIgnoreAttributeMatch();
      RowsRightAt(18, 21, mode);
    } else if mode < 24 {
      LookupValueIgnoreAttributeVary();
      RowsRightAt(21, 24, mode);
    } else {
      LookupValueIgnoreAttributeIgnore();
      RowsRightAt(24, 27, mode);
    }
  }

  // ---------------------------------------------------------------------
  // Running a query.

  const MonoIndex: nat := 1
  const TriIndex: nat := 3
  const HexaIndex: nat := 6

  /** The three granularities; each maintains the first `indexMode`
      orientations. */
  predicate IsIndexMode(indexMode: nat)
  {
    indexMode == MonoIndex || indexMode == TriIndex || indexMode == HexaIndex
  }

  /** The search a query runs.  `compact` marks the MonoIndex fallback,
      whose callback packs the varying positions to the front. */
  datatype Plan = Plan(subIndex: nat, pos: nat, size: nat, routine: Routine, compact: bool)

  /** The table's method for `mode`, with the fallbacks for orientations the
      index mode does not maintain: MonoIndex scans EAV completely, TriIndex
      answers an inverse orientation from its forward partner with searchGIV,
      reporting position 2. */
  function Dispatch(mode: nat, indexMode: nat): (p: Option<Plan>)
    requires mode < 27
    ensures p.None? <==> Lookup(mode).routine.None?
    ensures p.Some? && IsIndexMode(indexMode) ==> p.value.subIndex < indexMode
    ensures p.Some? ==> p.value.subIndex < 6 && p.value.pos + p.value.size <= 3
    ensures p.Some? && (p.value.routine == GGG || p.value.routine == VVV) ==> p.value.subIndex == EAV
  {
    LookupShape(mode);
    var m := Lookup(mode);
    match m.routine
    case None => None
    case Some(r) =>
      if indexMode == MonoIndex && m.subIndex != EAV then Some(Plan(EAV, m.pos, m.size, VVV, true))
      else if indexMode == TriIndex && m.subIndex >= 3 then Some(Plan(m.subIndex - 3, 2, m.size, GIV, false))
      else Some(Plan(m.subIndex, m.pos, m.size, r, false))
  }

  /** What routine r reports for the reordered query triple q. */
  ghost predicate Answer(table: Table, r: Routine, o: nat, q: Triple, x: Triple)
  {
    match r
    case GGG => x == q && Has(table, o, q)
    case GGV => Has(table, o, x) && x.entity == q.entity && x.attribute == q.attribute
    case GVV => Has(table, o, x) && x.entity == q.entity
    case GIV => x == With(q, 2, x.value) && exists b :: Has(table, o, Triple(q.entity, b, x.value))
    case GVI => x == With(q, 1, x.attribute) && exists g :: Has(table, o, Triple(q.entity, x.attribute, g))
    case VII => x == With(q, 0, x.entity) && x.entity in table
    case VVI => x.value == q.value && exists g :: Has(table, o, Triple(x.entity, x.attribute, g))
    case VVV => Has(table, o, x)
  }

  /** Runs routine r on orientation o. */
  method Search(table: Table, r: Routine, o: nat, q: Triple) returns (count: nat, emitted: seq<Triple>)
    requires WellFormed(table) && o < 6
    ensures count == |emitted| && NoDuplicates(emitted)
    ensures forall x :: x in emitted <==> Answer(table, r, o, q, x)
  {
    match r
    case GGG => count, emitted := SearchGGG(table, o, q);
    case GGV => count, emitted := SearchGGV(table, o, q);
    case GVV => count, emitted := SearchGVV(table, o, q);
    case GIV => count, emitted := SearchGIV(table, o, q);
    case GVI => count, emitted := SearchGVI(table, o, q);
    case VII => count, emitted := SearchVII(table, o, q);
    case VVI => count, emitted := SearchVVI(table, o, q);
    case VVV => count, emitted := SearchVVV(table, o, q);
  }

  /** Positions pos .. pos + size - 1 of x (handleNext). */
  function Project(x: Triple, pos: nat, size: nat): (s: seq<Symbol>)
    ensures |s| == size && forall i :: 0 <= i < size ==> s[i] == x.Pos(pos + i)
    decreases size
  {
    if size == 0 then [] else [x.Pos(pos)] + Project(x, pos + 1, size - 1)
  }

  /** The MonoIndex callback: the positions the mode varies, moved to the
      front in order; the positions behind them keep what the triple had. */
  function Compacted(mode: nat, x: Triple): Triple
  {
    var i0 := if mode % 3 == 1 then 1 else 0;
    var varyAttribute := 3 <= mode % 9 < 6;
    var y := if varyAttribute then With(x, i0, x.attribute) else x;
    var i1 := if varyAttribute then i0 + 1 else i0;
    if 9 <= mode < 18 then With(y, i1, y.value) else y
  }

  /** The positions a mode varies, in order. */
  function VaryingPositions(mode: nat): (ps: seq<nat>)
    ensures |ps| == CountDigits(mode, Vary) && forall i :: 0 <= i < |ps| ==> ps[i] < 3 && Digit(mode, ps[i]) == Vary
  {
    (if Digit(mode, 0) == Vary then [0] else []) + (if Digit(mode, 1) == Vary then [1] else []) +
    (if Digit(mode, 2) == Vary then [2] else [])
  }

  /** The MonoIndex callback delivers exactly the varying positions of the
      triple, in order, at the front. */
  lemma CompactedVarying(mode: nat, x: Triple)
    requires mode < 27
    ensures forall i :: 0 <= i < |VaryingPositions(mode)| ==>
      Compacted(mode, x).Pos(i) == x.Pos(VaryingPositions(mode)[i])
  {
  }

  /** The MonoIndex callback AS WRITTEN: it compacts the search's own
      working triple in place.  searchVVV writes position 0 when it moves to
      a new alpha, position 1 when it moves to a new beta and position 2 for
      every gamma, so what a callback overwrote survives into the next
      callback of the same beta.  `buffer` is that working triple and
      `previous` the triple seen before. */
  function DeliverAsWritten(mode: nat, seen: seq<Triple>, previous: Option<Triple>, buffer: Triple): (results: seq<Triple>)
    ensures |results| == |seen|
    decreases |seen|
  {
    if |seen| == 0 then []
    else
      var x := seen[0];
      var newAlpha := previous.None? || previous.value.entity != x.entity;
      var newBeta := newAlpha || previous.value.attribute != x.attribute;
      var b0 := if newAlpha then With(buffer, 0, x.entity) else buffer;
      var b1 := if newBeta then With(b0, 1, x.attribute) else b0;
      var c := Compacted(mode, With(b1, 2, x.value));
      [c] + DeliverAsWritten(mode, seen[1..], Some(x), c)
  }

  /** Mode 14 (entity ignored, attribute and value varying) is answered by
      a scan on MonoIndex.  For the second of two triples with the same
      entity and attribute the callback as written reports the first
      triple's value where the attribute belongs. */
  lemma MonoCompactionStale(x: Triple, y: Triple, buffer: Triple)
    requires x.entity == y.entity && x.attribute == y.attribute && x.value != x.attribute
    ensures Dispatch(14, MonoIndex).Some? && Dispatch(14, MonoIndex).value.compact
    ensures DeliverAsWritten(14, [x, y], None, buffer)[1].entity == x.value
    ensures Compacted(14, y).entity == y.attribute != x.value
  {
  }

  /** What the caller's callback receives for one triple the search saw. */
  function Delivered(p: Plan, mode: nat, x: Triple): seq<Symbol>
    requires p.pos + p.size <= 3
  {
    if p.compact then var c := Compacted(mode, x); [c.entity, c.attribute, c.value]
    else Project(x, p.pos, p.size)
  }

  function Deliver(p: Plan, mode: nat, seen: seq<Triple>): (results: seq<seq<Symbol>>)
    requires p.pos + p.size <= 3
    ensures |results| == |seen| && forall i :: 0 <= i < |seen| ==> results[i] == Delivered(p, mode, seen[i])
  {
    if |seen| == 0 then [] else [Delivered(p, mode, seen[0])] + Deliver(p, mode, seen[1..])
  }

  /** query: runs the dispatched search on the reordered triple and passes
      each triple it sees to the callback, projected.  A mode without a
      routine answers 0 and calls nothing.  On the MonoIndex fallback the
      callback receives the corrected compaction, Compacted of each triple,
      not the in-place one the source performs (see DeliverAsWritten). */
  method Query(table: Table, indexMode: nat, mode: nat, t: Triple)
    returns (count: nat, results: seq<seq<Symbol>>, seen: seq<Triple>)
    requires WellFormed(table) && mode < 27
    ensures Dispatch(mode, indexMode).None? ==> count == 0 && results == [] && seen == []
    ensures Dispatch(mode, indexMode).Some? ==>
      (var p := Dispatch(mode, indexMode).value;
       count == |seen| && NoDuplicates(seen) &&
       (forall x :: x in seen <==> Answer(table, p.routine, p.subIndex, Reordered(t, p.subIndex), x)) &&
       results == Deliver(p, mode, seen))
  {
    var plan := Dispatch(mode, indexMode);
    if plan.None? {
      count, results, seen := 0, [], [];
      return;
    }
    var p := plan.value;
    var q := Reordered(t, p.subIndex);
    count, seen := Search(table, p.routine, p.subIndex, q);
    results := Deliver(p, mode, seen);
  }

  // ---------------------------------------------------------------------
  // Facts for keeping the orientations in step.

  /** A new alpha entry holds nothing. */
  lemma NewEntry(table: Table, a: Symbol)
    requires WellFormed(table) && a !in table
    ensures WellFormed(table[a := EmptySubIndices()])
    ensures forall o, x :: Has(table[a := EmptySubIndices()], o, x) <==> Has(table, o, x)
  {
  }

  /** After adding triple t to orientation EAV and its rotation to
      orientation o (and nothing else there), o still mirrors EAV. */
  lemma MirrorsAdded(before: Table, after: Table, o: nat, t: Triple)
    requires 0 < o < 6 && Mirrors(before, o)
    requires forall x :: Has(after, EAV, x) <==> Has(before, EAV, x) || x == t
    requires forall x :: Has(after, o, x) <==> Has(before, o, x) || x == Reordered(t, o)
    ensures Mirrors(after, o)
  {
    forall r
      ensures Has(after, o, r) <==> Has(after, EAV, Normalized(r, o))
    {
      NormalizedReordered(t, o);
      NormalizedReordered(r, o);
    }
  }

  /** The same after removing t and its rotation. */
  lemma MirrorsRemoved(before: Table, after: Table, o: nat, t: Triple)
    requires 0 < o < 6 && Mirrors(before, o)
    requires forall x :: Has(after, EAV, x) <==> Has(before, EAV, x) && x != t
    requires forall x :: Has(after, o, x) <==> Has(before, o, x) && x != Reordered(t, o)
    ensures Mirrors(after, o)
  {
    forall r
      ensures Has(after, o, r) <==> Has(after, EAV, Normalized(r, o))
    {
      NormalizedReordered(t, o);
      NormalizedReordered(r, o);
    }
  }

  /** In a consistent index a triple is in every active orientation or in
      none. */
  lemma PresentEverywhere(table: Table, mode: nat, t: Triple, o: nat)
    requires Consistent(table, mode) && o < mode
    ensures Has(table, o, Reordered(t, o)) <==> Has(table, EAV, t)
  {
    NormalizedReordered(t, o);
    if o > 0 {
      assert Mirrors(table, o);
    }
  }
}
