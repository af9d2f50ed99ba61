/**
 `er.resolved_alias`: the recursive view that walks backwards from the entities that are not
 merged, against following the pointers forwards as `current_id` does.
 */
module Forwarding {
  import opened Wrappers

  /** Each entity and what it is merged into, if anything. */
  type Graph = map<string, Option<string>>

  const MAX_FORWARD_DEPTH: nat := 16

  /** One row of the recursive survivor relation. */
  datatype Survivor = Survivor(entity: string, current: string, depth: nat)

  // ------------------------------------------------------------ following pointers forwards

  /** Where following the pointer n times from e arrives, if it can be followed n times. */
  function Hops(g: Graph, e: string, n: nat): (x: Option<string>)
    ensures x.Some? ==> x.value in g
    decreases n
  {
    if e !in g then None
    else if n == 0 then Some(e)
    else if g[e].None? then None
    else Hops(g, g[e].value, n - 1)
  }

  /** Following the pointer d times from e arrives at c, which is not merged. */
  predicate Reaches(g: Graph, e: string, c: string, d: nat) {
    Hops(g, e, d) == Some(c) && c in g && g[c].None?
  }

  lemma {:induction false} HopsCompose(g: Graph, e: string, m: nat, n: nat)
    requires Hops(g, e, m).Some?
    ensures Hops(g, e, m + n) == Hops(g, Hops(g, e, m).value, n)
    decreases m
  {
    if m > 0 {
      HopsCompose(g, g[e].value, m - 1, n);
    }
  }

  lemma {:induction false} HopsStopAtSurvivor(g: Graph, e: string, c: string, d: nat, n: nat)
    requires Reaches(g, e, c, d)
    ensures Hops(g, e, n).Some? <==> n <= d
    decreases n
  {
    if n <= d {
      if n > 0 {
        HopsStopAtSurvivor(g, g[e].value, c, d - 1, n - 1);
      }
    } else {
      HopsCompose(g, e, d, n - d);
    }
  }

  /** There is at most one survivor, at one distance. */
  lemma ReachesIsUnique(g: Graph, e: string, c: string, d: nat, c': string, d': nat)
    requires Reaches(g, e, c, d) && Reaches(g, e, c', d')
    ensures c == c' && d == d'
  {
    HopsStopAtSurvivor(g, e, c, d, d');
    HopsStopAtSurvivor(g, e, c', d', d);
  }

  /** A chain that comes back to where it has been reaches nothing. */
  lemma ACycleReachesNothing(g: Graph, e: string, i: nat, j: nat, c: string, d: nat)
    requires i < j && Hops(g, e, i).Some? && Hops(g, e, i) == Hops(g, e, j)
    ensures !Reaches(g, e, c, d)
  {
    if Reaches(g, e, c, d) {
      HopsStopAtSurvivor(g, e, c, d, i);
      HopsStopAtSurvivor(g, e, c, d, j);
      var x := Hops(g, e, i).value;
      HopsCompose(g, e, i, d - i);
      HopsCompose(g, e, j, d - j);
      ReachesIsUnique(g, x, c, d - i, c, d - j);
    }
  }

  // ------------------------------------------------------------ the recursive query, backwards

  /** The rows one entity contributes to the next round: one for each row it is merged into. */
  function JoinedRow(g: Graph, e: string, working: seq<Survivor>): seq<Survivor>
    requires e in g
  {
    if working == [] then []
    else
      var s := working[0];
      (if g[e] == Some(s.entity) && s.depth < MAX_FORWARD_DEPTH
       then [Survivor(e, s.current, s.depth + 1)] else [])
      + JoinedRow(g, e, working[1..])
  }

  /** The recursive term: a scan of the table joined to the rows of the round before. */
  function Joined(g: Graph, scan: seq<string>, working: seq<Survivor>): seq<Survivor>
    requires forall e | e in scan :: e in g
  {
    if scan == [] then [] else JoinedRow(g, scan[0], working) + Joined(g, scan[1..], working)
  }

  /** The anchor: the entities that are not merged. */
  function Anchors(g: Graph, scan: seq<string>): seq<Survivor>
    requires forall e | e in scan :: e in g
  {
    if scan == [] then []
    else (if g[scan[0]].None? then [Survivor(scan[0], scan[0], 0)] else []) + Anchors(g, scan[1..])
  }

  function Round(g: Graph, scan: seq<string>, k: nat): seq<Survivor>
    requires forall e | e in scan :: e in g
  {
    if k == 0 then Anchors(g, scan) else Joined(g, scan, Round(g, scan, k - 1))
  }

  /** `UNION ALL` of every round up to k. */
  function Rounds(g: Graph, scan: seq<string>, k: nat): seq<Survivor>
    requires forall e | e in scan :: e in g
  {
    if k == 0 then Round(g, scan, 0) else Rounds(g, scan, k - 1) + Round(g, scan, k)
  }

  /** A scan lists every row of the table once, in whatever order. */
  ghost predicate IsScan(g: Graph, scan: seq<string>) {
    && (forall e :: e in scan <==> e in g)
    && (forall i, j | 0 <= i < j < |scan| :: scan[i] != scan[j])
  }

  ghost predicate DistinctEntities(rows: seq<Survivor>) {
    forall i, j | 0 <= i < j < |rows| :: rows[i].entity != rows[j].entity
  }

  lemma JoinedRowIn(g: Graph, e: string, working: seq<Survivor>, s: Survivor)
    requires e in g
    ensures s in JoinedRow(g, e, working) <==>
            && s.entity == e && s.depth > 0
            && Survivor(if g[e].Some? then g[e].value else "", s.current, s.depth - 1) in working
            && g[e].Some? && s.depth <= MAX_FORWARD_DEPTH
  {
  }

  lemma JoinedIn(g: Graph, scan: seq<string>, working: seq<Survivor>, s: Survivor)
    requires forall e | e in scan :: e in g
    ensures s in Joined(g, scan, working) <==> s.entity in scan && s in JoinedRow(g, s.entity, working)
  {
    if scan != [] {
      JoinedRowIn(g, scan[0], working, s);
      JoinedIn(g, scan[1..], working, s);
    }
  }

  lemma AnchorsIn(g: Graph, scan: seq<string>, s: Survivor)
    requires forall e | e in scan :: e in g
    ensures s in Anchors(g, scan) <==>
            s.entity in scan && g[s.entity].None? && s.current == s.entity && s.depth == 0
  {
  }

  lemma ReachesByOneMore(g: Graph, e: string, c: string, d: nat)
    ensures d > 0 ==> (Reaches(g, e, c, d) <==> e in g && g[e].Some? && Reaches(g, g[e].value, c, d - 1))
    ensures Reaches(g, e, c, 0) <==> e in g && g[e].None? && c == e
  {
  }

  /** Round k holds exactly the entities k hops from their survivor. */
  lemma {:induction false} RoundIsExact(g: Graph, scan: seq<string>, k: nat, s: Survivor)
    requires IsScan(g, scan)
    ensures s in Round(g, scan, k) <==>
            s.depth == k <= MAX_FORWARD_DEPTH && Reaches(g, s.entity, s.current, k)
  {
    ReachesByOneMore(g, s.entity, s.current, k);
    if k == 0 {
      AnchorsIn(g, scan, s);
    } else {
      JoinedFrom(g, scan, Round(g, scan, k - 1), s);
      if s.entity in g && g[s.entity].Some? && s.depth > 0 {
        RoundIsExact(g, scan, k - 1, Survivor(g[s.entity].value, s.current, s.depth - 1));
      }
    }
  }

  /** A row joins a round exactly when the row its pointer leads to was in the round before. */
  lemma JoinedFrom(g: Graph, scan: seq<string>, working: seq<Survivor>, s: Survivor)
    requires IsScan(g, scan)
    ensures s in Joined(g, scan, working) <==>
            && s.entity in g && g[s.entity].Some? && 0 < s.depth <= MAX_FORWARD_DEPTH
            && Survivor(g[s.entity].value, s.current, s.depth - 1) in working
  {
    JoinedIn(g, scan, working, s);
    if s.entity in g {
      JoinedRowIn(g, s.entity, working, s);
    }
  }

  lemma {:induction false} RoundsAreExact(g: Graph, scan: seq<string>, k: nat, s: Survivor)
    requires IsScan(g, scan) && k <= MAX_FORWARD_DEPTH
    ensures s in Rounds(g, scan, k) <==> s.depth <= k && Reaches(g, s.entity, s.current, s.depth)
  {
    RoundIsExact(g, scan, k, s);
    if k > 0 {
      RoundsAreExact(g, scan, k - 1, s);
    }
  }

  // ------------------------------------------------------------ no entity twice

  lemma {:induction false} JoinedRowOnce(g: Graph, e: string, working: seq<Survivor>)
    requires e in g && DistinctEntities(working)
    ensures |JoinedRow(g, e, working)| <= 1
    ensures forall s | s in JoinedRow(g, e, working) :: s.entity == e
  {
    if working != [] {
      JoinedRowOnce(g, e, working[1..]);
      assert forall t | t in working[1..] :: t.entity != working[0].entity;
      if g[e] == Some(working[0].entity) && JoinedRow(g, e, working[1..]) != [] {
        JoinedRowIn(g, e, working[1..], JoinedRow(g, e, working[1..])[0]);
      }
    }
  }

  lemma AppendDistinct(a: seq<Survivor>, b: seq<Survivor>)
    requires DistinctEntities(a) && DistinctEntities(b)
    requires forall s, t | s in a && t in b :: s.entity != t.entity
    ensures DistinctEntities(a + b)
  {
  }

  lemma {:induction false} JoinedOnce(g: Graph, scan: seq<string>, working: seq<Survivor>)
    requires forall e | e in scan :: e in g
    requires forall i, j | 0 <= i < j < |scan| :: scan[i] != scan[j]
    requires DistinctEntities(working)
    ensures DistinctEntities(Joined(g, scan, working))
  {
    if scan != [] {
      JoinedRowOnce(g, scan[0], working);
      JoinedOnce(g, scan[1..], working);
      forall t | t in Joined(g, scan[1..], working) ensures t.entity != scan[0] {
        JoinedIn(g, scan[1..], working, t);
      }
      AppendDistinct(JoinedRow(g, scan[0], working), Joined(g, scan[1..], working));
    }
  }

  lemma {:induction false} AnchorsOnce(g: Graph, scan: seq<string>)
    requires forall e | e in scan :: e in g
    requires forall i, j | 0 <= i < j < |scan| :: scan[i] != scan[j]
    ensures DistinctEntities(Anchors(g, scan))
  {
    if scan != [] {
      AnchorsOnce(g, scan[1..]);
      forall t | t in Anchors(g, scan[1..]) ensures t.entity != scan[0] {
        AnchorsIn(g, scan[1..], t);
      }
      AppendDistinct(if g[scan[0]].None? then [Survivor(scan[0], scan[0], 0)] else [], Anchors(g, scan[1..]));
    }
  }

  lemma {:induction false} RoundOnce(g: Graph, scan: seq<string>, k: nat)
    requires IsScan(g, scan)
    ensures DistinctEntities(Round(g, scan, k))
  {
    if k == 0 {
      AnchorsOnce(g, scan);
    } else {
      RoundOnce(g, scan, k - 1);
      JoinedOnce(g, scan, Round(g, scan, k - 1));
    }
  }

  /** Rows that each say truly how far their survivor is, within these bounds. */
  ghost predicate TrueFrom(g: Graph, rows: seq<Survivor>, least: nat, most: int) {
    forall s | s in rows :: least <= s.depth <= most && Reaches(g, s.entity, s.current, s.depth)
  }

  lemma DepthsApart(g: Graph, a: seq<Survivor>, b: seq<Survivor>, k: nat)
    requires TrueFrom(g, a, 0, k - 1) && TrueFrom(g, b, k, k)
    ensures forall s, t | s in a && t in b :: s.entity != t.entity
  {
    forall s, t | s in a && t in b ensures s.entity != t.entity {
      if s.entity == t.entity {
        ReachesIsUnique(g, s.entity, s.current, s.depth, t.current, t.depth);
      }
    }
  }

  lemma {:induction false} RoundIsTrue(g: Graph, scan: seq<string>, k: nat)
    requires IsScan(g, scan)
    ensures TrueFrom(g, Round(g, scan, k), k, k)
  {
    forall s | s in Round(g, scan, k) ensures s.depth == k && Reaches(g, s.entity, s.current, s.depth) {
      RoundIsExact(g, scan, k, s);
    }
  }

  lemma {:induction false} RoundsAreTrue(g: Graph, scan: seq<string>, k: nat)
    requires IsScan(g, scan) && k <= MAX_FORWARD_DEPTH
    ensures TrueFrom(g, Rounds(g, scan, k), 0, k)
  {
    forall s | s in Rounds(g, scan, k) ensures s.depth <= k && Reaches(g, s.entity, s.current, s.depth) {
      RoundsAreExact(g, scan, k, s);
    }
  }

  /** Rows of lesser depths, each entity once, and rows of one greater depth, each entity once. */
  lemma DeeperIsApart(g: Graph, sofar: seq<Survivor>, round: seq<Survivor>, k: nat)
    requires TrueFrom(g, sofar, 0, k - 1) && TrueFrom(g, round, k, k)
    requires DistinctEntities(sofar) && DistinctEntities(round)
    ensures DistinctEntities(sofar + round)
  {
    DepthsApart(g, sofar, round, k);
    AppendDistinct(sofar, round);
  }

  lemma {:induction false} RoundsByOneMore(g: Graph, scan: seq<string>, k: nat)
    requires IsScan(g, scan) && k > 0
    ensures Rounds(g, scan, k) == Rounds(g, scan, k - 1) + Round(g, scan, k)
  {
  }

  lemma {:induction false} RoundsOnce(g: Graph, scan: seq<string>, k: nat)
    requires IsScan(g, scan) && k <= MAX_FORWARD_DEPTH
    ensures DistinctEntities(Rounds(g, scan, k))
  {
    if k == 0 {
      RoundOnce(g, scan, 0);
    } else {
      assert DistinctEntities(Rounds(g, scan, k - 1) + Round(g, scan, k)) by {
        RoundsOnce(g, scan, k - 1);
        NextRoundIsApart(g, scan, k);
      }
      RoundsByOneMore(g, scan, k);
    }
  }

  lemma {:induction false} NextRoundIsApart(g: Graph, scan: seq<string>, k: nat)
    requires IsScan(g, scan) && 0 < k <= MAX_FORWARD_DEPTH && DistinctEntities(Rounds(g, scan, k - 1))
    ensures DistinctEntities(Rounds(g, scan, k - 1) + Round(g, scan, k))
  {
    RoundOnce(g, scan, k);
    RoundsAreTrue(g, scan, k - 1);
    RoundIsTrue(g, scan, k);
    DeeperIsApart(g, Rounds(g, scan, k - 1), Round(g, scan, k), k);
  }

  // ------------------------------------------------------------ the view

  /** Rounds past the depth bound are empty, so the recursion has an end on any graph. */
  lemma {:induction false} RoundsEnd(g: Graph, scan: seq<string>)
    requires IsScan(g, scan)
    ensures Round(g, scan, MAX_FORWARD_DEPTH + 1) == []
  {
    var last := Round(g, scan, MAX_FORWARD_DEPTH + 1);
    if last != [] {
      RoundIsExact(g, scan, MAX_FORWARD_DEPTH + 1, last[0]);
    }
  }

  lemma {:induction false} EmptyStaysEmpty(g: Graph, scan: seq<string>, k: nat, n: nat)
    requires IsScan(g, scan) && k <= n && Round(g, scan, k) == []
    ensures Round(g, scan, n) == [] && Rounds(g, scan, n) == Rounds(g, scan, k)
  {
    if k < n {
      EmptyStaysEmpty(g, scan, k, n - 1);
      JoinedNothing(g, scan);
    }
  }

  lemma {:induction false} EmptyAddsNothing(g: Graph, scan: seq<string>, n: nat)
    requires IsScan(g, scan) && Round(g, scan, n + 1) == []
    ensures Rounds(g, scan, n + 1) == Rounds(g, scan, n)
  {
    assert Rounds(g, scan, n) + [] == Rounds(g, scan, n);
  }

  lemma JoinedNothing(g: Graph, scan: seq<string>)
    requires forall e | e in scan :: e in g
    ensures Joined(g, scan, []) == []
  {
  }

  /** The recursion as the database runs it: rounds over a working table until one is empty. */
  method SurvivorRelation(g: Graph, scan: seq<string>) returns (rows: seq<Survivor>)
    requires IsScan(g, scan)
    ensures rows == Rounds(g, scan, MAX_FORWARD_DEPTH)
  {
    var working := Anchors(g, scan);
    rows := working;
    ghost var k := 0;
    RoundsEnd(g, scan);
    while working != []
      invariant k <= MAX_FORWARD_DEPTH + 1
      invariant working == Round(g, scan, k) && rows == Rounds(g, scan, k)
      decreases MAX_FORWARD_DEPTH + 1 - k
    {
      working := Joined(g, scan, working);
      rows := rows + working;
      k := k + 1;
    }
    if k <= MAX_FORWARD_DEPTH {
      EmptyStaysEmpty(g, scan, k, MAX_FORWARD_DEPTH);
    } else {
      EmptyAddsNothing(g, scan, MAX_FORWARD_DEPTH);
    }
  }

  /**
   The backward recursion is the forward chase. It produces (e, c, d) exactly when following the
   pointer d times from e, at most sixteen, arrives at the unmerged c; and it produces no entity
   twice. On any pointer graph whatever: a cycle contributes nothing.
   */
  lemma {:induction false} TheViewIsTheChase(g: Graph, scan: seq<string>, s: Survivor)
    requires IsScan(g, scan)
    ensures s in Rounds(g, scan, MAX_FORWARD_DEPTH) <==>
            s.depth <= MAX_FORWARD_DEPTH && Reaches(g, s.entity, s.current, s.depth)
    ensures DistinctEntities(Rounds(g, scan, MAX_FORWARD_DEPTH))
  {
    RoundsAreExact(g, scan, MAX_FORWARD_DEPTH, s);
    RoundsOnce(g, scan, MAX_FORWARD_DEPTH);
  }

  /** The join to an alias: the survivor rows of the entity it was observed against. */
  function RowsFor(rows: seq<Survivor>, e: string): seq<Survivor> {
    if rows == [] then []
    else (if rows[0].entity == e then [rows[0]] else []) + RowsFor(rows[1..], e)
  }

  lemma {:induction false} RowsForOne(rows: seq<Survivor>, e: string)
    requires DistinctEntities(rows)
    ensures |RowsFor(rows, e)| <= 1
    ensures forall s :: s in RowsFor(rows, e) <==> s in rows && s.entity == e
  {
    if rows != [] {
      RowsForOne(rows[1..], e);
      if rows[0].entity == e && RowsFor(rows[1..], e) != [] {
        assert RowsFor(rows[1..], e)[0] in rows[1..];
      }
    }
  }

  /** Pointers that lead to rows there are, as the foreign key keeps them. */
  predicate Closed(g: Graph) {
    forall e | e in g && g[e].Some? :: g[e].value in g
  }

  lemma {:induction false} ChainsThatEnd(g: Graph, e: string, n: nat)
    requires Closed(g) && e in g && Hops(g, e, n + 1).None?
    ensures exists c, d: nat | d <= n :: Reaches(g, e, c, d)
    decreases n
  {
    if g[e].None? {
      assert Reaches(g, e, e, 0);
    } else {
      ChainsThatEnd(g, g[e].value, n - 1);
      var c, d: nat :| d <= n - 1 && Reaches(g, g[e].value, c, d);
      assert Reaches(g, e, c, d + 1);
    }
  }

  /**
   Every alias has exactly one resolved row if its entity's chain ends within sixteen hops, and
   otherwise, when the chain is longer or never ends, it has none.
   */
  lemma {:induction false} AnAliasResolvesOnceOrNotAtAll(g: Graph, scan: seq<string>, e: string)
    requires IsScan(g, scan) && Closed(g) && e in g
    ensures |RowsFor(Rounds(g, scan, MAX_FORWARD_DEPTH), e)|
         == if Hops(g, e, MAX_FORWARD_DEPTH + 1).None? then 1 else 0
  {
    var rows := Rounds(g, scan, MAX_FORWARD_DEPTH);
    RoundsOnce(g, scan, MAX_FORWARD_DEPTH);
    RowsForOne(rows, e);
    if Hops(g, e, MAX_FORWARD_DEPTH + 1).None? {
      ChainsThatEnd(g, e, MAX_FORWARD_DEPTH);
      var c, d: nat :| d <= MAX_FORWARD_DEPTH && Reaches(g, e, c, d);
      RoundsAreExact(g, scan, MAX_FORWARD_DEPTH, Survivor(e, c, d));
      assert Survivor(e, c, d) in RowsFor(rows, e);
    } else if RowsFor(rows, e) != [] {
      var s := RowsFor(rows, e)[0];
      assert s in RowsFor(rows, e);
      RoundsAreExact(g, scan, MAX_FORWARD_DEPTH, s);
      HopsStopAtSurvivor(g, e, s.current, s.depth, MAX_FORWARD_DEPTH + 1);
    }
  }

  // ------------------------------------------------------------ current_id

  datatype ResolutionError = UnknownEntity | ReturnsToItself | TooLong | PointsNowhere

  lemma VisitedEarlier(g: Graph, e: string, n: nat, seen: set<string>, x: string)
    requires x in seen
    requires forall y | y in seen :: exists i: nat | i <= n :: Hops(g, e, i) == Some(y)
    ensures exists i: nat | i <= n :: Hops(g, e, i) == Some(x)
  {
  }

  /** The pointers as the application reads them: an empty one is none. */
  function AsRead(g: Graph): Graph {
    map e | e in g :: if g[e] == Some("") then None else g[e]
  }

  /** Every pointer that is there points at something with a name, as the table's columns have it. */
  predicate NamesThings(g: Graph) {
    forall e | e in g :: g[e] != Some("")
  }

  lemma ReadAsItIs(g: Graph)
    ensures AsRead(g) == g <==> NamesThings(g)
  {
    if AsRead(g) == g {
      forall e | e in g ensures g[e] != Some("") {
        assert AsRead(g)[e] == g[e];
      }
    }
  }

  /**
   The application's own chase, which raises where the view is silent: it answers c exactly when the
   chase over the pointers as it reads them reaches c within the bound.
   */
  method CurrentId(table: Graph, e: string) returns (r: Result<string, ResolutionError>)
    ensures forall c :: r == Ok(c) <==> exists d: nat | d <= MAX_FORWARD_DEPTH :: Reaches(AsRead(table), e, c, d)
  {
    var g := AsRead(table);
    if e !in g {
      return Err(UnknownEntity);
    }
    var seen, current := {e}, e;
    ghost var n := 0;
    while g[current].Some?
      invariant current in g && Hops(g, e, n) == Some(current)
      invariant n <= MAX_FORWARD_DEPTH && |seen| == n + 1
      invariant forall y | y in seen :: exists i: nat | i <= n :: Hops(g, e, i) == Some(y)
      decreases MAX_FORWARD_DEPTH - n
    {
      var next := g[current].value;
      HopsCompose(g, e, n, 1);
      if next in seen {
        VisitedEarlier(g, e, n, seen, next);
        ghost var i: nat :| i <= n && Hops(g, e, i) == Some(next);
        forall c, d: nat ensures !Reaches(g, e, c, d) {
          ACycleReachesNothing(g, e, i, n + 1, c, d);
        }
        return Err(ReturnsToItself);
      }
      if |seen| > MAX_FORWARD_DEPTH {
        forall c, d: nat | d <= MAX_FORWARD_DEPTH ensures !Reaches(g, e, c, d) {
          LongerThan(g, e, n, c, d);
        }
        return Err(TooLong);
      }
      if next !in g {
        forall c, d: nat ensures !Reaches(g, e, c, d) {
          LongerThan(g, e, n, c, d);
          if Reaches(g, e, c, d) {
            HopsStopAtSurvivor(g, e, c, d, n + 1);
          }
        }
        return Err(PointsNowhere);
      }
      forall y | y in seen + {next} ensures exists i: nat | i <= n + 1 :: Hops(g, e, i) == Some(y) {
        if y == next {
          assert Hops(g, e, n + 1) == Some(next);
        } else {
          VisitedEarlier(g, e, n, seen, y);
        }
      }
      seen, current, n := seen + {next}, next, n + 1;
    }
    assert Reaches(g, e, current, n);
    forall c, d: nat | Reaches(g, e, c, d) ensures c == current {
      ReachesIsUnique(g, e, c, d, current, n);
    }
    r := Ok(current);
  }

  lemma LongerThan(g: Graph, e: string, n: nat, c: string, d: nat)
    requires Hops(g, e, n).Some? && Hops(g, e, n).value in g && g[Hops(g, e, n).value].Some?
    ensures Reaches(g, e, c, d) ==> d > n
  {
    if Reaches(g, e, c, d) {
      HopsStopAtSurvivor(g, e, c, d, n);
    }
  }

  /**
   Where no pointer is empty the view and the application agree on every graph: the view has a row
   taking an id to c exactly when the application answers c for it, whatever scan the view made.
   */
  lemma TheViewIsWhatIsRead(g: Graph, scan: seq<string>, e: string, c: string)
    requires IsScan(g, scan) && NamesThings(g)
    ensures (exists d: nat | d <= MAX_FORWARD_DEPTH :: Reaches(AsRead(g), e, c, d))
       <==> exists s | s in Rounds(g, scan, MAX_FORWARD_DEPTH) :: s.entity == e && s.current == c
  {
    ReadAsItIs(g);
    if d: nat :| d <= MAX_FORWARD_DEPTH && Reaches(g, e, c, d) {
      RoundsAreExact(g, scan, MAX_FORWARD_DEPTH, Survivor(e, c, d));
    }
    if s :| s in Rounds(g, scan, MAX_FORWARD_DEPTH) && s.entity == e && s.current == c {
      RoundsAreExact(g, scan, MAX_FORWARD_DEPTH, s);
    }
  }
}
