/**
 `er.canonical` as merges change it: the pointers stay a forest, every id ever issued goes on
 resolving to one survivor, and the view keeps all of them for as long as chains stay short.
 */
module Merges {
  import opened Wrappers
  import opened Text
  import opened Forwarding

  ghost predicate HasSurvivor(g: Graph, e: string) {
    exists c, d: nat :: Reaches(g, e, c, d)
  }

  /** Every entity has a survivor. */
  ghost predicate Forest(g: Graph) {
    forall e {:trigger HasSurvivor(g, e)} | e in g :: HasSurvivor(g, e)
  }

  ghost function DepthOf(g: Graph, e: string): (d: nat)
    requires Forest(g) && e in g
    ensures exists c :: Reaches(g, e, c, d)
  {
    assert HasSurvivor(g, e);
    var c, d: nat :| Reaches(g, e, c, d);
    d
  }

  ghost function SurvivorOf(g: Graph, e: string): (c: string)
    requires Forest(g) && e in g
    ensures Reaches(g, e, c, DepthOf(g, e))
  {
    var c :| Reaches(g, e, c, DepthOf(g, e));
    c
  }

  function Survivors(g: Graph): set<string> {
    set e | e in g && g[e].None?
  }

  /** A merge points an unmerged entity at one whose survivor is different. */
  ghost predicate Mergeable(g: Graph, loser: string, into: string)
    requires Forest(g)
  {
    loser in g && into in g && g[loser].None? && SurvivorOf(g, into) != loser
  }

  function Merged(g: Graph, loser: string, into: string): Graph {
    g[loser := Some(into)]
  }

  /** What keeps its survivor through a merge keeps it at the same distance. */
  lemma {:induction false} UntouchedChain(g: Graph, loser: string, into: string, e: string, c: string, d: nat)
    requires loser in g && g[loser].None? && Reaches(g, e, c, d) && c != loser
    ensures Reaches(Merged(g, loser, into), e, c, d)
    decreases d
  {
    if d > 0 {
      UntouchedChain(g, loser, into, g[e].value, c, d - 1);
    }
  }

  /** What survived as the loser now goes on to the loser's new survivor. */
  lemma {:induction false} ExtendedChain(g: Graph, loser: string, into: string, e: string, d: nat, c: string, more: nat)
    requires loser in g && g[loser].None? && Reaches(g, e, loser, d)
    requires Reaches(g, into, c, more) && c != loser
    ensures Reaches(Merged(g, loser, into), e, c, d + 1 + more)
    decreases d
  {
    if d > 0 {
      ExtendedChain(g, loser, into, g[e].value, d - 1, c, more);
    } else {
      UntouchedChain(g, loser, into, into, c, more);
    }
  }

  /** Where an entity resolves after a merge, and how far away. */
  lemma MergeRedirects(g: Graph, loser: string, into: string, e: string)
    requires Forest(g) && Mergeable(g, loser, into) && e in g
    ensures var g' := Merged(g, loser, into);
            if SurvivorOf(g, e) == loser
            then Reaches(g', e, SurvivorOf(g, into), DepthOf(g, e) + 1 + DepthOf(g, into))
            else Reaches(g', e, SurvivorOf(g, e), DepthOf(g, e))
  {
    if SurvivorOf(g, e) == loser {
      ExtendedChain(g, loser, into, e, DepthOf(g, e), SurvivorOf(g, into), DepthOf(g, into));
    } else {
      UntouchedChain(g, loser, into, e, SurvivorOf(g, e), DepthOf(g, e));
    }
  }

  /** A merge keeps the forest and removes exactly one survivor. */
  lemma AMergeKeepsTheForest(g: Graph, loser: string, into: string)
    requires Forest(g) && Mergeable(g, loser, into)
    ensures Forest(Merged(g, loser, into)) && Merged(g, loser, into).Keys == g.Keys
    ensures Survivors(Merged(g, loser, into)) == Survivors(g) - {loser} && loser in Survivors(g)
  {
    var g' := Merged(g, loser, into);
    forall e | e in g' ensures HasSurvivor(g', e) {
      MergeRedirects(g, loser, into, e);
    }
  }

  lemma AMergeKeepsPointersClosed(g: Graph, loser: string, into: string)
    requires Closed(g) && loser in g && into in g
    ensures Closed(Merged(g, loser, into))
  {
  }

  lemma SurvivorIsThis(g: Graph, e: string, c: string, d: nat)
    requires Forest(g) && e in g && Reaches(g, e, c, d)
    ensures SurvivorOf(g, e) == c && DepthOf(g, e) == d
  {
    ReachesIsUnique(g, e, SurvivorOf(g, e), DepthOf(g, e), c, d);
  }

  /**
   A merge moves every entity the loser stood for, and no other, to the survivor of the entity it
   was merged into, lengthening their chains by the hop and the rest of the way.
   */
  lemma AMergeMovesTheLosersOnly(g: Graph, loser: string, into: string, e: string)
    requires Forest(g) && Mergeable(g, loser, into) && e in g && Forest(Merged(g, loser, into))
    ensures var g' := Merged(g, loser, into);
            if SurvivorOf(g, e) == loser
            then SurvivorOf(g', e) == SurvivorOf(g, into) && DepthOf(g', e) == DepthOf(g, e) + 1 + DepthOf(g, into)
            else SurvivorOf(g', e) == SurvivorOf(g, e) && DepthOf(g', e) == DepthOf(g, e)
  {
    var g' := Merged(g, loser, into);
    MergeRedirects(g, loser, into, e);
    if SurvivorOf(g, e) == loser {
      SurvivorIsThis(g', e, SurvivorOf(g, into), DepthOf(g, e) + 1 + DepthOf(g, into));
    } else {
      SurvivorIsThis(g', e, SurvivorOf(g, e), DepthOf(g, e));
    }
  }

  // ------------------------------------------------------------ what the view keeps

  /** Whether the view has a row for an entity. */
  ghost predicate InView(g: Graph, scan: seq<string>, e: string)
    requires IsScan(g, scan)
  {
    exists s | s in Rounds(g, scan, MAX_FORWARD_DEPTH) :: s.entity == e
  }

  /** The view has an entity exactly when its chain is no longer than sixteen, and then at its survivor. */
  lemma InViewWhileShort(g: Graph, scan: seq<string>, e: string)
    requires Forest(g) && IsScan(g, scan) && e in g
    ensures InView(g, scan, e) <==> DepthOf(g, e) <= MAX_FORWARD_DEPTH
    ensures InView(g, scan, e) ==>
              Survivor(e, SurvivorOf(g, e), DepthOf(g, e)) in Rounds(g, scan, MAX_FORWARD_DEPTH)
  {
    var here := Survivor(e, SurvivorOf(g, e), DepthOf(g, e));
    RoundsAreExact(g, scan, MAX_FORWARD_DEPTH, here);
    if InView(g, scan, e) {
      var s :| s in Rounds(g, scan, MAX_FORWARD_DEPTH) && s.entity == e;
      RoundsAreExact(g, scan, MAX_FORWARD_DEPTH, s);
      ReachesIsUnique(g, e, s.current, s.depth, here.current, here.depth);
    }
  }

  /** A merge drops an entity from the view exactly when it makes that entity's chain pass sixteen. */
  lemma AMergeDropsWhatItMakesLong(g: Graph, scan: seq<string>, loser: string, into: string, e: string)
    requires Forest(g) && Mergeable(g, loser, into) && e in g
    requires IsScan(g, scan) && IsScan(Merged(g, loser, into), scan) && InView(g, scan, e)
    ensures InView(Merged(g, loser, into), scan, e) <==>
            !(SurvivorOf(g, e) == loser && DepthOf(g, e) + 1 + DepthOf(g, into) > MAX_FORWARD_DEPTH)
  {
    AMergeKeepsTheForest(g, loser, into);
    AMergeMovesTheLosersOnly(g, loser, into, e);
    InViewWhileShort(g, scan, e);
    InViewWhileShort(Merged(g, loser, into), scan, e);
  }

  // ------------------------------------------------------------ the table

  datatype Kind = Company | Person | Project

  datatype Entity = Entity(kind: Kind, mergedInto: Option<string>, mergedAt: Option<int>)

  function GraphOf(rows: map<string, Entity>): Graph {
    map e | e in rows :: rows[e].mergedInto
  }

  datatype Refusal = IntoItself | Unknown | IntoAStub | AlreadyMerged | DifferentKinds | IdTaken

  /** Why `merge` refuses to merge one entity into another. */
  function MergeRefusal(rows: map<string, Entity>, survivor: string, loser: string): Option<Refusal> {
    if survivor == loser then Some(IntoItself)
    else if survivor !in rows || loser !in rows then Some(Unknown)
    else if rows[survivor].mergedInto.Some? then Some(IntoAStub)
    else if rows[loser].mergedInto.Some? then Some(AlreadyMerged)
    else if rows[survivor].kind != rows[loser].kind then Some(DifferentKinds)
    else None
  }

  /** Every pointer leads somewhere, and a pointer and its moment are set together. */
  predicate Stated(rows: map<string, Entity>) {
    forall e | e in rows :: rows[e].mergedInto.Some? <==> rows[e].mergedAt.Some?
  }

  /** A pointer leads to an entity of the same kind. */
  predicate KeepsKinds(rows: map<string, Entity>) {
    forall e | e in rows && rows[e].mergedInto.Some? && rows[e].mergedInto.value in rows ::
      rows[rows[e].mergedInto.value].kind == rows[e].kind
  }

  lemma {:induction false} ChainKeepsKind(rows: map<string, Entity>, e: string, c: string, d: nat)
    requires KeepsKinds(rows) && Reaches(GraphOf(rows), e, c, d)
    ensures e in rows && c in rows && rows[c].kind == rows[e].kind
    decreases d
  {
    if d > 0 {
      ChainKeepsKind(rows, rows[e].mergedInto.value, c, d - 1);
    }
  }

  /** What an entity resolves to is of its own kind. */
  ghost predicate InKind(rows: map<string, Entity>, e: string)
    requires Forest(GraphOf(rows)) && e in rows
  {
    var c := SurvivorOf(GraphOf(rows), e);
    c in rows && rows[c].kind == rows[e].kind
  }

  ghost predicate ResolvesInKind(rows: map<string, Entity>)
    requires Forest(GraphOf(rows))
  {
    forall e {:trigger InKind(rows, e)} | e in rows :: InKind(rows, e)
  }

  lemma ResolvedInKind(rows: map<string, Entity>, e: string)
    requires Forest(GraphOf(rows)) && KeepsKinds(rows) && e in rows
    ensures InKind(rows, e)
  {
    ChainKeepsKind(rows, e, SurvivorOf(GraphOf(rows), e), DepthOf(GraphOf(rows), e));
  }

  lemma KindsResolve(rows: map<string, Entity>)
    requires Forest(GraphOf(rows)) && KeepsKinds(rows)
    ensures ResolvesInKind(rows)
  {
    forall e | e in rows ensures InKind(rows, e) {
      ResolvedInKind(rows, e);
    }
  }

  /** Of two different current entities one can be merged into the other exactly when they are of one kind. */
  lemma AMergeIsRefusedIff(rows: map<string, Entity>, survivor: string, loser: string)
    requires survivor in rows && loser in rows && survivor != loser
    requires rows[survivor].mergedInto == None && rows[loser].mergedInto == None
    ensures MergeRefusal(rows, survivor, loser) != None <==> rows[survivor].kind != rows[loser].kind
  {
  }

  datatype Deed = MintDeed(id: string, kind: Kind) | MergeDeed(survivor: string, loser: string, at: int)

  /** What a mint or a merge leaves, refused or not. */
  function Done(rows: map<string, Entity>, d: Deed): map<string, Entity> {
    match d
    case MintDeed(id, kind) => if id in rows then rows else rows[id := Entity(kind, None, None)]
    case MergeDeed(survivor, loser, at) =>
      if MergeRefusal(rows, survivor, loser).Some? then rows
      else rows[loser := Entity(rows[loser].kind, Some(survivor), Some(at))]
  }

  ghost predicate Sound(rows: map<string, Entity>) {
    Forest(GraphOf(rows)) && Closed(GraphOf(rows)) && Stated(rows) && KeepsKinds(rows)
  }

  lemma MintKeepsKinds(rows: map<string, Entity>, id: string, kind: Kind)
    requires id !in rows && KeepsKinds(rows) && Closed(GraphOf(rows))
    ensures KeepsKinds(rows[id := Entity(kind, None, None)])
  {
    forall e | e in rows && rows[e].mergedInto.Some? ensures rows[e].mergedInto.value != id {
      assert GraphOf(rows)[e] == rows[e].mergedInto;
    }
  }

  lemma MintIsSound(rows: map<string, Entity>, id: string, kind: Kind)
    requires Sound(rows) && id !in rows
    ensures Sound(rows[id := Entity(kind, None, None)])
  {
    MintKeeps(GraphOf(rows), id);
    MintKeepsKinds(rows, id, kind);
    assert GraphOf(rows[id := Entity(kind, None, None)]) == GraphOf(rows)[id := None];
  }

  lemma MergeIsSound(rows: map<string, Entity>, survivor: string, loser: string, at: int)
    requires Sound(rows) && MergeRefusal(rows, survivor, loser).None?
    ensures var next := rows[loser := Entity(rows[loser].kind, Some(survivor), Some(at))];
            && Sound(next) && Survivors(GraphOf(next)) == Survivors(GraphOf(rows)) - {loser}
            && loser in Survivors(GraphOf(rows))
  {
    CurrentIntoCurrent(GraphOf(rows), loser, survivor);
    assert GraphOf(rows[loser := Entity(rows[loser].kind, Some(survivor), Some(at))])
        == Merged(GraphOf(rows), loser, survivor);
  }

  lemma DoneIsSound(rows: map<string, Entity>, d: Deed)
    requires Sound(rows)
    ensures Sound(Done(rows, d))
  {
    match d
    case MintDeed(id, kind) =>
      if id !in rows {
        MintIsSound(rows, id, kind);
      }
    case MergeDeed(survivor, loser, at) =>
      if MergeRefusal(rows, survivor, loser).None? {
        MergeIsSound(rows, survivor, loser, at);
      }
  }

  class Canonical {
    var rows: map<string, Entity>

    constructor ()
      ensures rows == map[] && Kept()
    {
      rows := map[];
    }

    ghost predicate Kept()
      reads this
    {
      Sound(rows) && ResolvesInKind(rows)
    }

    /** A new entity is its own survivor and disturbs nobody's. */
    method Mint(id: string, kind: Kind) returns (refusal: Option<Refusal>)
      requires Kept()
      modifies this
      ensures Kept()
      ensures refusal == if id in old(rows) then Some(IdTaken) else None
      ensures rows == if refusal.None? then old(rows)[id := Entity(kind, None, None)] else old(rows)
    {
      if id in rows {
        return Some(IdTaken);
      }
      MintIsSound(rows, id, kind);
      rows := rows[id := Entity(kind, None, None)];
      KindsResolve(rows);
      refusal := None;
    }

    /** One pointer and its moment, and nothing else. */
    method Merge(survivor: string, loser: string, at: int) returns (refusal: Option<Refusal>)
      requires Kept()
      modifies this
      ensures Kept()
      ensures refusal == MergeRefusal(old(rows), survivor, loser)
      ensures rows == if refusal.Some? then old(rows)
                      else old(rows)[loser := Entity(old(rows)[loser].kind, Some(survivor), Some(at))]
      ensures refusal.None? ==>
                && Survivors(GraphOf(rows)) == Survivors(GraphOf(old(rows))) - {loser}
                && loser in Survivors(GraphOf(old(rows)))
    {
      refusal := MergeRefusal(rows, survivor, loser);
      if refusal.None? {
        MergeIsSound(rows, survivor, loser, at);
        rows := rows[loser := rows[loser].(mergedInto := Some(survivor), mergedAt := Some(at))];
        KindsResolve(rows);
      }
    }
  }

  lemma {:induction false} MintedChain(g: Graph, id: string, e: string, c: string, d: nat)
    requires id !in g && Reaches(g, e, c, d)
    ensures Reaches(g[id := None], e, c, d)
    decreases d
  {
    if d > 0 {
      MintedChain(g, id, g[e].value, c, d - 1);
    }
  }

  lemma MintKeeps(g: Graph, id: string)
    requires Forest(g) && id !in g
    ensures Forest(g[id := None])
  {
    var g' := g[id := None];
    assert Reaches(g', id, id, 0);
    forall e | e in g' ensures HasSurvivor(g', e) {
      if e != id {
        MintedChain(g, id, e, SurvivorOf(g, e), DepthOf(g, e));
      }
    }
  }

  /** The rule `merge` follows, two current entities, is a case of the one the forest needs. */
  lemma CurrentIntoCurrent(g: Graph, loser: string, survivor: string)
    requires Forest(g) && Closed(g) && loser != survivor
    requires loser in g && survivor in g && g[loser].None? && g[survivor].None?
    ensures Mergeable(g, loser, survivor)
    ensures Forest(Merged(g, loser, survivor)) && Closed(Merged(g, loser, survivor))
    ensures Survivors(Merged(g, loser, survivor)) == Survivors(g) - {loser} && loser in Survivors(g)
  {
    assert Reaches(g, survivor, survivor, 0);
    SurvivorIsThis(g, survivor, survivor, 0);
    AMergeKeepsTheForest(g, loser, survivor);
    AMergeKeepsPointersClosed(g, loser, survivor);
  }

  // ------------------------------------------------------------ runs

  datatype Step = Mint(id: string) | Merge(loser: string, into: string)

  /** A step that the rules allow happens, and one they do not allow changes nothing. */
  ghost function Taken(g: Graph, s: Step): Graph
    requires Forest(g)
  {
    match s
    case Mint(id) => if id in g then g else g[id := None]
    case Merge(loser, into) => if Mergeable(g, loser, into) then Merged(g, loser, into) else g
  }

  /** The graphs that runs of mints and merges build from nothing. */
  ghost function Run(steps: seq<Step>): (g: Graph)
    ensures Forest(g) && Closed(g)
  {
    if steps == [] then map[]
    else
      var g := Run(steps[..|steps| - 1]);
      var s := steps[|steps| - 1];
      StepKeeps(g, s);
      Taken(g, s)
  }

  lemma StepKeeps(g: Graph, s: Step)
    requires Forest(g) && Closed(g)
    ensures Forest(Taken(g, s)) && Closed(Taken(g, s)) && g.Keys <= Taken(g, s).Keys
  {
    match s
    case Mint(id) =>
      if id !in g {
        MintKeeps(g, id);
      }
    case Merge(loser, into) =>
      if Mergeable(g, loser, into) {
        AMergeKeepsTheForest(g, loser, into);
        AMergeKeepsPointersClosed(g, loser, into);
      }
  }

  lemma StepOnlyLengthens(g: Graph, s: Step, e: string)
    requires Forest(g) && e in g && Forest(Taken(g, s)) && e in Taken(g, s)
    ensures DepthOf(Taken(g, s), e) >= DepthOf(g, e)
  {
    match s
    case Mint(id) =>
      if id !in g {
        MintedChain(g, id, e, SurvivorOf(g, e), DepthOf(g, e));
        SurvivorIsThis(Taken(g, s), e, SurvivorOf(g, e), DepthOf(g, e));
      }
    case Merge(loser, into) =>
      if Mergeable(g, loser, into) {
        AMergeMovesTheLosersOnly(g, loser, into, e);
      }
  }

  /**
   Over every run of mints and merges the pointers are a forest: every id issued at any point goes
   on reaching one unmerged entity, the only one it reaches, and its chain only ever lengthens.
   */
  lemma {:induction false} EveryIssuedIdKeepsResolving(steps: seq<Step>, more: seq<Step>, e: string)
    requires e in Run(steps)
    ensures e in Run(steps + more)
    ensures Reaches(Run(steps + more), e, SurvivorOf(Run(steps + more), e), DepthOf(Run(steps + more), e))
    ensures DepthOf(Run(steps + more), e) >= DepthOf(Run(steps), e)
    ensures forall c, d: nat :: Reaches(Run(steps + more), e, c, d) ==>
              c == SurvivorOf(Run(steps + more), e) && d == DepthOf(Run(steps + more), e)
  {
    if more == [] {
      assert steps + more == steps;
    } else {
      var before := more[..|more| - 1];
      assert (steps + more)[..|steps + more| - 1] == steps + before;
      EveryIssuedIdKeepsResolving(steps, before, e);
      StepKeeps(Run(steps + before), more[|more| - 1]);
      StepOnlyLengthens(Run(steps + before), more[|more| - 1], e);
    }
    var g := Run(steps + more);
    forall c, d: nat | Reaches(g, e, c, d) ensures c == SurvivorOf(g, e) && d == DepthOf(g, e) {
      SurvivorIsThis(g, e, c, d);
    }
  }

  // ------------------------------------------------------------ runs of the table itself

  ghost function RowsAfter(deeds: seq<Deed>): (rows: map<string, Entity>)
    ensures Sound(rows)
  {
    if deeds == [] then map[]
    else
      DoneIsSound(RowsAfter(deeds[..|deeds| - 1]), deeds[|deeds| - 1]);
      Done(RowsAfter(deeds[..|deeds| - 1]), deeds[|deeds| - 1])
  }

  /**
   Over every run of mints and merges an issued id stays issued and stays of its kind, and what it
   resolves to is of that kind: no record of a person is ever gathered under a company.
   */
  lemma AnIdKeepsItsKind(deeds: seq<Deed>, more: seq<Deed>, e: string)
    requires e in RowsAfter(deeds)
    ensures var rows := RowsAfter(deeds + more);
            && e in rows && rows[e].kind == RowsAfter(deeds)[e].kind
            && SurvivorOf(GraphOf(rows), e) in rows
            && rows[SurvivorOf(GraphOf(rows), e)].kind == RowsAfter(deeds)[e].kind
  {
    KindsStand(deeds, more, e);
    ResolvedInKind(RowsAfter(deeds + more), e);
  }

  lemma DoneKeepsKind(rows: map<string, Entity>, d: Deed, e: string)
    requires e in rows
    ensures e in Done(rows, d) && Done(rows, d)[e].kind == rows[e].kind
  {
  }

  lemma {:induction false} KindsStand(deeds: seq<Deed>, more: seq<Deed>, e: string)
    requires e in RowsAfter(deeds)
    ensures e in RowsAfter(deeds + more) && RowsAfter(deeds + more)[e].kind == RowsAfter(deeds)[e].kind
  {
    if more == [] {
      assert deeds + more == deeds;
    } else {
      var before := deeds + more[..|more| - 1];
      assert (deeds + more)[..|deeds + more| - 1] == before;
      KindsStand(deeds, more[..|more| - 1], e);
      DoneKeepsKind(RowsAfter(before), more[|more| - 1], e);
    }
  }

  // ------------------------------------------------------------ a history longer than sixteen

  /** Each entity merged, while current, into the next one minted. */
  function LongHistory(n: nat): seq<Step> {
    if n == 0 then [Mint(Decimal(0))]
    else LongHistory(n - 1) + [Mint(Decimal(n)), Merge(Decimal(n - 1), Decimal(n))]
  }

  /** One more round of a long history: mint the next entity and merge the last one into it. */
  lemma NextRound(before: Graph, first: string, last: string, next: string, d: nat)
    requires Forest(before) && Reaches(before, first, last, d) && next !in before
    ensures var minted := before[next := None];
            && Forest(minted) && Mergeable(minted, last, next)
            && Reaches(Merged(minted, last, next), first, next, d + 1)
  {
    var minted := before[next := None];
    MintKeeps(before, next);
    MintedChain(before, next, first, last, d);
    assert Reaches(minted, next, next, 0);
    SurvivorIsThis(minted, next, next, 0);
    ExtendedChain(minted, last, next, first, d, next, 0);
  }

  lemma LongHistoryGrows(n: nat)
    requires n > 0
    ensures var minted := Run(LongHistory(n - 1) + [Mint(Decimal(n))]);
            && minted == Taken(Run(LongHistory(n - 1)), Mint(Decimal(n)))
            && Run(LongHistory(n)) == Taken(minted, Merge(Decimal(n - 1), Decimal(n)))
  {
    var steps := LongHistory(n);
    var minted := LongHistory(n - 1) + [Mint(Decimal(n))];
    assert minted[..|minted| - 1] == LongHistory(n - 1) && steps[..|steps| - 1] == minted;
  }

  ghost predicate Numbered(g: Graph, n: nat) {
    forall e | e in g :: exists k: nat | k <= n :: e == Decimal(k)
  }

  lemma NumberedGrows(before: Graph, g: Graph, n: nat)
    requires Numbered(before, n) && g.Keys == before.Keys + {Decimal(n + 1)}
    ensures Numbered(g, n + 1)
  {
    forall e | e in g ensures exists k: nat | k <= n + 1 :: e == Decimal(k) {
      if e in before {
        var k: nat :| k <= n && e == Decimal(k);
      }
    }
  }

  lemma NextNumberIsNew(before: Graph, n: nat)
    requires Numbered(before, n)
    ensures Decimal(n + 1) !in before
  {
    if Decimal(n + 1) in before {
      var k: nat :| k <= n && Decimal(n + 1) == Decimal(k);
      DecimalInjective(n + 1, k);
    }
  }

  lemma FirstOfHistory()
    ensures Run(LongHistory(0)) == map[Decimal(0) := None]
  {
    var steps := LongHistory(0);
    assert steps[..0] == [] && Run(steps) == Taken(map[], steps[0]);
  }

  lemma {:induction false} LongHistoryRuns(n: nat)
    ensures Reaches(Run(LongHistory(n)), Decimal(0), Decimal(n), n)
    ensures Numbered(Run(LongHistory(n)), n)
  {
    if n == 0 {
      FirstOfHistory();
    } else {
      LongHistoryRuns(n - 1);
      LongHistoryGrows(n);
      var before := Run(LongHistory(n - 1));
      NextNumberIsNew(before, n - 1);
      NextRound(before, Decimal(0), Decimal(n - 1), Decimal(n), n - 1);
      NumberedGrows(before, Run(LongHistory(n)), n - 1);
    }
  }

  /** The first id of such a history is in the view for as long as it has no more than sixteen merges. */
  lemma AHistoryStaysInTheViewIff(n: nat, scan: seq<string>)
    requires IsScan(Run(LongHistory(n)), scan)
    ensures InView(Run(LongHistory(n)), scan, Decimal(0)) <==> n <= 16
  {
    var g := Run(LongHistory(n));
    LongHistoryRuns(n);
    InViewWhileShort(g, scan, Decimal(0));
    SurvivorIsThis(g, Decimal(0), Decimal(n), n);
  }

  /**
   Seventeen merges, each of a current entity into a current one, are a history the merge rules
   allow and the view does not survive: the first id still resolves and the view has lost it.
   */
  lemma ALongHistoryLeavesTheView(scan: seq<string>)
    requires IsScan(Run(LongHistory(17)), scan)
    ensures var g := Run(LongHistory(17));
            Reaches(g, Decimal(0), Decimal(17), 17) && !InView(g, scan, Decimal(0))
  {
    var g := Run(LongHistory(17));
    LongHistoryRuns(17);
    InViewWhileShort(g, scan, Decimal(0));
    SurvivorIsThis(g, Decimal(0), Decimal(17), 17);
  }
}
