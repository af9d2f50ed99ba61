/**
 Counting the breakdown's leaves: the flags of docs/wbs/acts.js, the walk of docs/wbs/render.js that
 sizes the waves, and the `refresh` of the page it writes.
 */
module Counting {
  import opened Wrappers
  import opened Text
  import opened Numbering

  // ------------------------------------------------------------ counting in general

  function Count<T>(xs: seq<T>, p: T -> bool): nat {
    if xs == [] then 0 else Count(xs[..|xs| - 1], p) + if p(xs[|xs| - 1]) then 1 else 0
  }

  /** Among those `p` picks, the ones whose key is `k`. */
  function Keyed<T>(p: T -> bool, key: T -> string, k: string): T -> bool {
    x => p(x) && key(x) == k
  }

  /** The counts at each of these keys, added up. */
  function SumBy<T>(xs: seq<T>, p: T -> bool, key: T -> string, ks: seq<string>): nat {
    if ks == [] then 0 else Count(xs, Keyed(p, key, ks[0])) + SumBy(xs, p, key, ks[1..])
  }

  predicate NoDuplicates<T(==)>(ks: seq<T>) {
    forall i, j | 0 <= i < j < |ks| :: ks[i] != ks[j]
  }

  lemma CountSnoc<T>(xs: seq<T>, i: nat, p: T -> bool)
    requires i < |xs|
    ensures Count(xs[..i + 1], p) == Count(xs[..i], p) + if p(xs[i]) then 1 else 0
  {
    assert xs[..i + 1][..i] == xs[..i];
  }

  lemma {:induction false} CountTogether<T>(xs: seq<T>, ys: seq<T>, p: T -> bool)
    ensures Count(xs + ys, p) == Count(xs, p) + Count(ys, p)
  {
    if ys == [] {
      assert xs + ys == xs;
    } else {
      CountTogether(xs, ys[..|ys| - 1], p);
      assert (xs + ys)[..|xs + ys| - 1] == xs + ys[..|ys| - 1];
    }
  }

  /** Whatever `p` picks, exactly one of `q` and `r` picks. */
  lemma {:induction false} CountSplits<T>(xs: seq<T>, p: T -> bool, q: T -> bool, r: T -> bool)
    requires forall x | x in xs :: p(x) == (q(x) || r(x)) && !(q(x) && r(x))
    ensures Count(xs, p) == Count(xs, q) + Count(xs, r)
  {
    if xs != [] {
      CountSplits(xs[..|xs| - 1], p, q, r);
    }
  }

  lemma {:induction false} SumBySnoc<T>(xs: seq<T>, p: T -> bool, key: T -> string, ks: seq<string>)
    requires xs != [] && NoDuplicates(ks)
    ensures SumBy(xs, p, key, ks) == SumBy(xs[..|xs| - 1], p, key, ks)
                                     + if p(xs[|xs| - 1]) && key(xs[|xs| - 1]) in ks then 1 else 0
  {
    if ks != [] {
      SumBySnoc(xs, p, key, ks[1..]);
      assert key(xs[|xs| - 1]) in ks <==> key(xs[|xs| - 1]) == ks[0] || key(xs[|xs| - 1]) in ks[1..];
      assert ks[0] !in ks[1..];
    }
  }

  /** However the things counted are split by a key, every one is counted once. */
  lemma {:induction false} EachIsCountedOnce<T>(xs: seq<T>, p: T -> bool, key: T -> string, ks: seq<string>)
    requires NoDuplicates(ks)
    requires forall x | x in xs && p(x) :: key(x) in ks
    ensures SumBy(xs, p, key, ks) == Count(xs, p)
  {
    if xs == [] {
      SumOfNothing(p, key, ks);
    } else {
      EachIsCountedOnce(xs[..|xs| - 1], p, key, ks);
      SumBySnoc(xs, p, key, ks);
    }
  }

  lemma {:induction false} SumOfNothing<T>(p: T -> bool, key: T -> string, ks: seq<string>)
    ensures SumBy([], p, key, ks) == 0
  {
    if ks != [] {
      SumOfNothing(p, key, ks[1..]);
    }
  }

  lemma CountedIsThere<T>(xs: seq<T>, p: T -> bool)
    ensures Count(xs, p) > 0 <==> exists x | x in xs :: p(x)
  {
    if xs != [] {
      CountedIsThere(xs[..|xs| - 1], p);
      assert xs == xs[..|xs| - 1] + [xs[|xs| - 1]];
    }
  }

  // ------------------------------------------------------------ the flags

  /** A flag on a leaf: the text it was put against, why, and whether it gates the cutover. */
  datatype Flag = Flag(text: string, kind: string, gate: bool, why: string)

  /** The flags as they are written down, each id once. */
  type Acts = a: seq<(string, Flag)> | (forall i, j | 0 <= i < j < |a| :: a[i].0 != a[j].0)

  const Kinds := ["ACT", "UNBUILDABLE", "DECIDED"]

  datatype Fault =
    | NamesNoLeaf(id: string)
    | Moved(id: string, now: string)
    | UnknownKind(id: string)
    | NoReason(id: string)
    | GatesNothing(id: string)

  predicate Blank(s: string) {
    Trimmed(s) == ""
  }

  /** A flag that belongs where it is. */
  predicate Right(flag: (string, Flag), textOf: map<string, string>) {
    var (id, f) := flag;
    && id in textOf && textOf[id] == f.text
    && f.kind in Kinds
    && (f.kind == "ACT" || !Blank(f.why))
    && !(f.kind == "DECIDED" && f.gate)
  }

  predicate IsDecided(flag: (string, Flag)) {
    flag.1.kind == "DECIDED"
  }

  predicate IsNamed(wrong: seq<Fault>, id: string) {
    exists f | f in wrong :: f.id == id
  }

  /** What a flag has to be, in so many words. */
  lemma AFlagIsRightIff(id: string, f: Flag, textOf: map<string, string>)
    ensures Right((id, f), textOf) <==>
            && id in textOf && textOf[id] == f.text
            && (f.kind == "ACT" || ((f.kind == "UNBUILDABLE" || (f.kind == "DECIDED" && !f.gate))
                                    && exists i | 0 <= i < |f.why| :: !IsWhite(f.why[i])))
  {
    TrimmedToNothing(f.why);
    assert f.kind in Kinds <==> f.kind == "ACT" || f.kind == "UNBUILDABLE" || f.kind == "DECIDED";
  }

  /** The faults so far name exactly the flags so far that do not belong. */
  ghost predicate NamesTheWrong(wrong: seq<Fault>, acts: Acts, n: nat, textOf: map<string, string>)
    requires n <= |acts|
  {
    && (forall f | f in wrong :: exists j | 0 <= j < n :: f.id == acts[j].0)
    && (forall j | 0 <= j < n :: !Right(acts[j], textOf) <==> IsNamed(wrong, acts[j].0))
    && (wrong == [] <==> forall j | 0 <= j < n :: Right(acts[j], textOf))
  }

  lemma NamedTogether(wrong: seq<Fault>, found: seq<Fault>, id: string)
    ensures IsNamed(wrong + found, id) <==> IsNamed(wrong, id) || IsNamed(found, id)
  {
  }

  lemma NamesOneMore(wrong: seq<Fault>, found: seq<Fault>, acts: Acts, n: nat, textOf: map<string, string>)
    requires n < |acts| && NamesTheWrong(wrong, acts, n, textOf)
    requires found == [] <==> Right(acts[n], textOf)
    requires forall f | f in found :: f.id == acts[n].0
    ensures NamesTheWrong(wrong + found, acts, n + 1, textOf)
  {
    forall j | 0 <= j < n + 1
      ensures !Right(acts[j], textOf) <==> IsNamed(wrong + found, acts[j].0)
    {
      NamedTogether(wrong, found, acts[j].0);
      if j < n {
        assert acts[j].0 != acts[n].0;
      } else {
        assert !IsNamed(wrong, acts[n].0);
        assert found != [] ==> found[0] in found;
      }
    }
  }

  /** `check`: every fault of every flag, or how many flags are acts and how many decisions. */
  method Check(acts: Acts, textOf: map<string, string>) returns (r: Result<(nat, nat), seq<Fault>>)
    ensures r.Ok? <==> forall i | 0 <= i < |acts| :: Right(acts[i], textOf)
    ensures r.Ok? ==> r.value.1 == Count(acts, IsDecided) && r.value.0 + r.value.1 == |acts|
    ensures r.Err? ==> forall i | 0 <= i < |acts| :: !Right(acts[i], textOf) <==> IsNamed(r.error, acts[i].0)
  {
    var wrong: seq<Fault> := [];
    for i := 0 to |acts|
      invariant NamesTheWrong(wrong, acts, i, textOf)
    {
      var found := FaultsOf(acts[i], textOf);
      NamesOneMore(wrong, found, acts, i, textOf);
      wrong := wrong + found;
    }
    if wrong != [] {
      return Err(wrong);
    }
    var decided := 0;
    for i := 0 to |acts|
      invariant decided == Count(acts[..i], IsDecided) <= i
    {
      CountSnoc(acts, i, IsDecided);
      if IsDecided(acts[i]) {
        decided := decided + 1;
      }
    }
    assert acts[..|acts|] == acts;
    r := Ok((|acts| - decided, decided));
  }

  /** What one pass of the loop pushes. */
  method FaultsOf(flag: (string, Flag), textOf: map<string, string>) returns (wrong: seq<Fault>)
    ensures wrong == [] <==> Right(flag, textOf)
    ensures forall f | f in wrong :: f.id == flag.0
    ensures NamesNoLeaf(flag.0) in wrong <==> flag.0 !in textOf
    ensures forall now :: Moved(flag.0, now) in wrong <==>
                          flag.0 in textOf && textOf[flag.0] == now && now != flag.1.text
    ensures UnknownKind(flag.0) in wrong <==> flag.1.kind !in Kinds
    ensures NoReason(flag.0) in wrong <==> flag.1.kind != "ACT" && Blank(flag.1.why)
    ensures GatesNothing(flag.0) in wrong <==> flag.1.kind == "DECIDED" && flag.1.gate
  {
    var (id, f) := flag;
    wrong := [];
    if id !in textOf {
      wrong := wrong + [NamesNoLeaf(id)];
    } else if textOf[id] != f.text {
      wrong := wrong + [Moved(id, textOf[id])];
    }
    if f.kind !in Kinds {
      wrong := wrong + [UnknownKind(id)];
    }
    if f.kind != "ACT" && Blank(f.why) {
      wrong := wrong + [NoReason(id)];
    }
    if f.kind == "DECIDED" && f.gate {
      wrong := wrong + [GatesNothing(id)];
    }
  }

  predicate Flagged(acts: Acts, id: string) {
    exists i | 0 <= i < |acts| :: acts[i].0 == id
  }

  function Unflagged(acts: Acts): string -> bool {
    id => !Flagged(acts, id)
  }

  /**
   Taking the number of flags from the number of leaves leaves the number of unflagged leaves
   exactly when every flag names a leaf, and less than it otherwise.
   */
  lemma TakingTheFlagsAway(leaves: seq<string>, acts: Acts)
    requires NoDuplicates(leaves)
    ensures |leaves| - |acts| <= Count(leaves, Unflagged(acts))
    ensures |leaves| - |acts| == Count(leaves, Unflagged(acts)) <==> forall i | 0 <= i < |acts| :: acts[i].0 in leaves
  {
    CountIsCardinality(leaves, Unflagged(acts));
    UnflaggedAreTheRest(leaves, acts);
    KeysAreMany(acts);
    SetOfDistinct(leaves);
    TakenAway(Members(leaves), Named(acts));
    NamedAreMembers(leaves, acts);
  }

  function Members(xs: seq<string>): set<string> {
    set x | x in xs
  }

  function Picked(xs: seq<string>, p: string -> bool): set<string> {
    set x | x in xs && p(x)
  }

  function Named(acts: Acts): set<string> {
    set i | 0 <= i < |acts| :: acts[i].0
  }

  lemma UnflaggedAreTheRest(leaves: seq<string>, acts: Acts)
    ensures Picked(leaves, Unflagged(acts)) == Members(leaves) - Named(acts)
  {
  }

  lemma NamedAreMembers(leaves: seq<string>, acts: Acts)
    ensures |Named(acts) - Members(leaves)| == 0 <==> forall i | 0 <= i < |acts| :: acts[i].0 in leaves
  {
    forall i | 0 <= i < |acts|
      ensures acts[i].0 in leaves || acts[i].0 in Named(acts) - Members(leaves)
    {
      assert acts[i].0 in Named(acts);
    }
  }

  lemma TakenAway(all: set<string>, named: set<string>)
    ensures |all - named| == |all| - |named| + |named - all|
  {
    assert all == (all - named) + (all * named);
    assert named == (named - all) + (all * named);
  }

  lemma PickedSnoc(front: seq<string>, last: string, p: string -> bool)
    requires last !in front
    ensures |Picked(front + [last], p)| == |Picked(front, p)| + if p(last) then 1 else 0
  {
    assert Picked(front + [last], p) == Picked(front, p) + if p(last) then {last} else {};
  }

  lemma {:induction false} CountIsCardinality(xs: seq<string>, p: string -> bool)
    requires NoDuplicates(xs)
    ensures Count(xs, p) == |Picked(xs, p)|
  {
    if xs != [] {
      var front, last := xs[..|xs| - 1], xs[|xs| - 1];
      CountIsCardinality(front, p);
      PickedSnoc(front, last, p);
      assert xs == front + [last];
    }
  }

  lemma SetOfDistinct(xs: seq<string>)
    requires NoDuplicates(xs)
    ensures |Members(xs)| == |xs|
  {
    if xs != [] {
      var front, last := xs[..|xs| - 1], xs[|xs| - 1];
      SetOfDistinct(front);
      assert Members(xs) == Members(front) + {last};
    }
  }

  lemma KeysAreMany(acts: Acts)
    ensures |Named(acts)| == |acts|
  {
    var ids := seq(|acts|, i requires 0 <= i < |acts| => acts[i].0);
    SetOfDistinct(ids);
    forall id ensures id in Named(acts) <==> id in Members(ids) {
      if id in Named(acts) {
        var i :| 0 <= i < |acts| && acts[i].0 == id;
        assert ids[i] == id;
      }
    }
    assert Named(acts) == Members(ids);
  }
}
