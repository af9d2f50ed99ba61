/**
 Progress over the breakdown: the tables docs/wbs/render.js builds while it walks the tree, and the
 figures `refresh` works out on the page from the boxes that walk wrote.
 */
module Progress {
  import opened Wrappers
  import opened Text
  import opened Numbering
  import opened Counting

  // ------------------------------------------------------------ a group's descendants, by prefix

  /** `id.indexOf(group + ".") === 0`. */
  predicate Descends(group: string, id: string) {
    var pre := group + ".";
    |pre| <= |id| && id[..|pre|] == pre
  }

  lemma DescendsIsUnder(group: string, id: string)
    ensures Descends(group, id) <==> Under(group, id) && id != group
  {
    var pre := group + ".";
    if Descends(group, id) {
      assert id[..|group|] == id[..|pre|][..|group|] == group;
      assert id[|group|] == id[..|pre|][|group|] == '.';
    }
    if Under(group, id) && id != group {
      assert id[..|pre|] == id[..|group|] + [id[|group|]];
    }
  }

  /** The leaves of a list that a group's prefix picks out. */
  function Descendants(xs: seq<Numbered>, group: string): seq<Numbered> {
    if xs == [] then []
    else Here(xs[0], group) + Descendants(xs[1..], group)
  }

  function Here(x: Numbered, group: string): seq<Numbered> {
    if Descends(group, x.0) then [x] else []
  }

  lemma DescendantsOfMore(x: Numbered, xs: seq<Numbered>, group: string)
    ensures Descendants([x] + xs, group) == Here(x, group) + Descendants(xs, group)
  {
    assert ([x] + xs)[1..] == xs;
  }

  lemma Associate<T>(a: seq<T>, b: seq<T>, c: seq<T>)
    ensures a + b + c == a + (b + c)
  {
  }

  lemma {:induction false} DescendantsTogether(xs: seq<Numbered>, ys: seq<Numbered>, group: string)
    ensures Descendants(xs + ys, group) == Descendants(xs, group) + Descendants(ys, group)
  {
    if xs == [] {
      assert xs + ys == ys;
    } else {
      var x, rest := xs[0], xs[1..];
      DescendantsTogether(rest, ys, group);
      assert xs == [x] + rest;
      Associate([x], rest, ys);
      DescendantsOfMore(x, rest, group);
      DescendantsOfMore(x, rest + ys, group);
      Associate(Here(x, group), Descendants(rest, group), Descendants(ys, group));
    }
  }

  lemma {:induction false} AllDescend(xs: seq<Numbered>, group: string)
    requires forall x | x in xs :: Descends(group, x.0)
    ensures Descendants(xs, group) == xs
  {
    if xs != [] {
      AllDescend(xs[1..], group);
    }
  }

  lemma {:induction false} NoneDescend(xs: seq<Numbered>, group: string)
    requires forall x | x in xs :: !Descends(group, x.0)
    ensures Descendants(xs, group) == []
  {
    if xs != [] {
      NoneDescend(xs[1..], group);
    }
  }

  /** A place below another: which child to take at each level. */
  predicate IsPath(n: Norm, path: seq<nat>)
    decreases path
  {
    path == [] || (path[0] < |n.children| && IsPath(n.children[path[0]], path[1..]))
  }

  function At(n: Norm, path: seq<nat>): Norm
    requires IsPath(n, path)
    decreases path
  {
    if path == [] then n else At(n.children[path[0]], path[1..])
  }

  function IdAt(id: string, path: seq<nat>): string
    decreases path
  {
    if path == [] then id else IdAt(ChildId(id, path[0]), path[1..])
  }

  lemma UnderTransitive(a: string, b: string, c: string)
    requires Under(a, b) && Under(b, c)
    ensures Under(a, c)
  {
    if a != b && b != c {
      assert c[..|a|] == c[..|b|][..|a|] == b[..|a|];
      assert c[|a|] == c[..|b|][|a|];
    }
  }

  lemma {:induction false} IdAtIsUnder(id: string, path: seq<nat>)
    ensures Under(id, IdAt(id, path))
    decreases path
  {
    if path != [] {
      var child := ChildId(id, path[0]);
      IdAtIsUnder(child, path[1..]);
      UnderChild(id, path[0], IdAt(id, path));
    }
  }

  /**
   The prefix of a group's id picks out exactly the leaves drawn below that group, in the order they
   are drawn, from anywhere in the tree: M1.2 does not pick up M1.20.
   */
  lemma {:induction false} AGroupsPrefixPicksItsLeaves(n: Norm, id: string, path: seq<nat>)
    requires IsPath(n, path) && At(n, path).children != []
    ensures Descendants(Rendered(n, id), IdAt(id, path)) == Rendered(At(n, path), IdAt(id, path))
    decreases path
  {
    if path == [] {
      RenderedAllUnder(n.children, id, 0);
      forall x | x in Rendered(n, id) ensures Descends(id, x.0) {
        var i: nat :| Under(ChildId(id, i), x.0);
        UnderChild(id, i, x.0);
        DescendsIsUnder(id, x.0);
      }
      AllDescend(Rendered(n, id), id);
    } else {
      AGroupsPrefixPicksItsLeaves(n.children[path[0]], ChildId(id, path[0]), path[1..]);
      IdAtIsUnder(ChildId(id, path[0]), path[1..]);
      OneChildDescends(n.children, id, 0, path[0], IdAt(id, path));
    }
  }

  /** Only the child a place is under has leaves below that place. */
  lemma {:induction false} OneChildDescends(nodes: seq<Norm>, prefix: string, from: nat, i: nat, group: string)
    requires Under(ChildId(prefix, from + i), group) && i < |nodes|
    ensures Descendants(RenderedAll(nodes, prefix, from), group)
         == Descendants(Rendered(nodes[i], ChildId(prefix, from + i)), group)
    decreases i
  {
    FirstChildApart(nodes, prefix, from, group);
    var first := Descendants(Rendered(nodes[0], ChildId(prefix, from)), group);
    var rest := Descendants(RenderedAll(nodes[1..], prefix, from + 1), group);
    if i == 0 {
      assert rest == [] by {
        NoLaterChildDescends(nodes[1..], prefix, from, group);
      }
      assert first + [] == first;
    } else {
      assert first == [] by {
        NotThisChild(nodes[0], prefix, from, from + i, group);
      }
      assert rest == Descendants(Rendered(nodes[i], ChildId(prefix, from + i)), group) by {
        assert nodes[1..][i - 1] == nodes[i];
        OneChildDescends(nodes[1..], prefix, from + 1, i - 1, group);
      }
      assert [] + rest == rest;
    }
  }

  lemma FirstChildApart(nodes: seq<Norm>, prefix: string, from: nat, group: string)
    requires nodes != []
    ensures Descendants(RenderedAll(nodes, prefix, from), group)
         == Descendants(Rendered(nodes[0], ChildId(prefix, from)), group)
            + Descendants(RenderedAll(nodes[1..], prefix, from + 1), group)
  {
    DescendantsTogether(Rendered(nodes[0], ChildId(prefix, from)), RenderedAll(nodes[1..], prefix, from + 1), group);
  }

  lemma NoLaterChildDescends(later: seq<Norm>, prefix: string, from: nat, group: string)
    requires Under(ChildId(prefix, from), group)
    ensures Descendants(RenderedAll(later, prefix, from + 1), group) == []
  {
    var rest := RenderedAll(later, prefix, from + 1);
    RenderedAllUnder(later, prefix, from + 1);
    forall x | x in rest ensures !Descends(group, x.0) {
      var j: nat :| j >= from + 1 && Under(ChildId(prefix, j), x.0);
      ElsewhereIsNotBelow(prefix, from, j, group, x.0);
    }
    NoneDescend(rest, group);
  }

  lemma NotThisChild(n: Norm, prefix: string, here: nat, there: nat, group: string)
    requires here != there && Under(ChildId(prefix, there), group)
    ensures Descendants(Rendered(n, ChildId(prefix, here)), group) == []
  {
    var xs := Rendered(n, ChildId(prefix, here));
    RenderedUnder(n, ChildId(prefix, here));
    forall x | x in xs ensures !Descends(group, x.0) {
      ElsewhereIsNotBelow(prefix, there, here, group, x.0);
    }
    NoneDescend(xs, group);
  }

  lemma ElsewhereIsNotBelow(prefix: string, i: nat, j: nat, group: string, id: string)
    requires i != j && Under(ChildId(prefix, i), group) && Under(ChildId(prefix, j), id)
    ensures !Descends(group, id)
  {
    if Descends(group, id) {
      DescendsIsUnder(group, id);
      UnderTransitive(ChildId(prefix, i), group, id);
      UnderOneChild(prefix, i, j, id);
    }
  }

  // ------------------------------------------------------------ the tables of the walk

  /** A leaf, with the module it is in and the wave it is counted in. */
  datatype Leaf = Leaf(id: string, mod: string, wave: string)

  datatype TreeModule = TreeModule(id: string, wave: string, tasks: seq<Norm>)

  /** A leaf's own wave where it has one, and its module's otherwise. */
  function WaveOfLeaf(lw: map<string, string>, id: string, modWave: string): string {
    if id in lw then lw[id] else modWave
  }

  function Placed(xs: seq<Numbered>, m: TreeModule, lw: map<string, string>): seq<Leaf> {
    seq(|xs|, i requires 0 <= i < |xs| => Leaf(xs[i].0, m.id, WaveOfLeaf(lw, xs[i].0, m.wave)))
  }

  function TreeLeaves(tree: seq<TreeModule>, lw: map<string, string>): seq<Leaf> {
    if tree == [] then []
    else
      var m := tree[|tree| - 1];
      TreeLeaves(tree[..|tree| - 1], lw) + Placed(RenderedAll(m.tasks, m.id, 0), m, lw)
  }

  function Get<K(==)>(m: map<K, nat>, k: K): nat {
    if k in m then m[k] else 0
  }

  function AnyLeaf(): Leaf -> bool {
    (l: Leaf) => true
  }

  function FreeLeaf(acts: Acts): Leaf -> bool {
    (l: Leaf) => !Flagged(acts, l.id)
  }

  function LeafWave(): Leaf -> string {
    (l: Leaf) => l.wave
  }

  function LeafModule(): Leaf -> string {
    (l: Leaf) => l.mod
  }

  function InWave(w: string): Leaf -> bool {
    Keyed(AnyLeaf(), LeafWave(), w)
  }

  /** `waves`, `wavesBuildable` and `waveModLeaves`, the last by wave and module. */
  datatype Tables = Tables(waves: map<string, nat>, buildable: map<string, nat>, here: map<(string, string), nat>)

  /** The tables after so many more leaves. */
  ghost predicate Grown(a: Tables, b: Tables, ls: seq<Leaf>, acts: Acts) {
    && (forall w :: Get(b.waves, w) == Get(a.waves, w) + Count(ls, InWave(w)))
    && (forall w :: Get(b.buildable, w) == Get(a.buildable, w) + Count(ls, Keyed(FreeLeaf(acts), LeafWave(), w)))
    && (forall w, m :: Get(b.here, (w, m)) == Get(a.here, (w, m)) + Count(ls, Keyed(InWave(w), LeafModule(), m)))
  }

  lemma GrownTogether(a: Tables, b: Tables, c: Tables, xs: seq<Leaf>, ys: seq<Leaf>, acts: Acts)
    requires Grown(a, b, xs, acts) && Grown(b, c, ys, acts)
    ensures Grown(a, c, xs + ys, acts)
  {
    forall w
      ensures Get(c.waves, w) == Get(a.waves, w) + Count(xs + ys, InWave(w))
      ensures Get(c.buildable, w) == Get(a.buildable, w) + Count(xs + ys, Keyed(FreeLeaf(acts), LeafWave(), w))
    {
      CountTogether(xs, ys, InWave(w));
      CountTogether(xs, ys, Keyed(FreeLeaf(acts), LeafWave(), w));
    }
    forall w, m
      ensures Get(c.here, (w, m)) == Get(a.here, (w, m)) + Count(xs + ys, Keyed(InWave(w), LeafModule(), m))
    {
      CountTogether(xs, ys, Keyed(InWave(w), LeafModule(), m));
    }
  }

  lemma GrownByOne(a: Tables, b: Tables, l: Leaf, acts: Acts)
    requires b.waves == a.waves[l.wave := Get(a.waves, l.wave) + 1]
    requires b.buildable == a.buildable[l.wave := Get(a.buildable, l.wave) + if Flagged(acts, l.id) then 0 else 1]
    requires b.here == a.here[(l.wave, l.mod) := Get(a.here, (l.wave, l.mod)) + 1]
    ensures Grown(a, b, [l], acts)
  {
  }

  lemma PlacedTogether(xs: seq<Numbered>, ys: seq<Numbered>, m: TreeModule, lw: map<string, string>)
    ensures Placed(xs + ys, m, lw) == Placed(xs, m, lw) + Placed(ys, m, lw)
  {
  }

  lemma {:induction false} RenderedAllSnoc(nodes: seq<Norm>, prefix: string, from: nat, i: nat)
    requires i < |nodes|
    ensures RenderedAll(nodes[..i + 1], prefix, from)
         == RenderedAll(nodes[..i], prefix, from) + Rendered(nodes[i], ChildId(prefix, from + i))
  {
    if i == 0 {
      assert nodes[..1][1..] == [];
    } else {
      RenderedAllSnoc(nodes[1..], prefix, from + 1, i - 1);
      assert nodes[..i + 1][1..] == nodes[1..][..i] && nodes[..i][1..] == nodes[1..][..i - 1];
    }
  }

  lemma GrownByOneNode(a: Tables, b: Tables, c: Tables, nodes: seq<Norm>, prefix: string, i: nat,
                       m: TreeModule, lw: map<string, string>, acts: Acts)
    requires i < |nodes|
    requires Grown(a, b, Placed(RenderedAll(nodes[..i], prefix, 0), m, lw), acts)
    requires Grown(b, c, Placed(Rendered(nodes[i], ChildId(prefix, i)), m, lw), acts)
    ensures Grown(a, c, Placed(RenderedAll(nodes[..i + 1], prefix, 0), m, lw), acts)
  {
    var sofar, more := RenderedAll(nodes[..i], prefix, 0), Rendered(nodes[i], ChildId(prefix, i));
    assert RenderedAll(nodes[..i + 1], prefix, 0) == sofar + more by {
      RenderedAllSnoc(nodes, prefix, 0, i);
    }
    PlacedTogether(sofar, more, m, lw);
    GrownTogether(a, b, c, Placed(sofar, m, lw), Placed(more, m, lw), acts);
  }

  class Walk {
    var waves: map<string, nat>
    var buildable: map<string, nat>
    var here: map<(string, string), nat>

    constructor ()
      ensures Now() == Tables(map[], map[], map[])
    {
      waves, buildable, here := map[], map[], map[];
    }

    function Now(): Tables
      reads this
    {
      Tables(waves, buildable, here)
    }

    /** `walkIds`: a leaf adds one to each table, and anything else is walked child by child. */
    method WalkIds(n: Norm, id: string, m: TreeModule, lw: map<string, string>, acts: Acts)
      modifies this
      ensures Grown(old(Now()), Now(), Placed(Rendered(n, id), m, lw), acts)
      decreases n, 0
    {
      if n.children == [] {
        var w := WaveOfLeaf(lw, id, m.wave);
        waves := waves[w := Get(waves, w) + 1];
        buildable := buildable[w := Get(buildable, w) + if Flagged(acts, id) then 0 else 1];
        here := here[(w, m.id) := Get(here, (w, m.id)) + 1];
        GrownByOne(old(Now()), Now(), Leaf(id, m.id, w), acts);
        assert Placed(Rendered(n, id), m, lw) == [Leaf(id, m.id, w)];
        return;
      }
      WalkAll(n.children, id, m, lw, acts);
    }

    method WalkAll(nodes: seq<Norm>, prefix: string, m: TreeModule, lw: map<string, string>, acts: Acts)
      modifies this
      ensures Grown(old(Now()), Now(), Placed(RenderedAll(nodes, prefix, 0), m, lw), acts)
      decreases nodes, 1
    {
      for i := 0 to |nodes|
        invariant Grown(old(Now()), Now(), Placed(RenderedAll(nodes[..i], prefix, 0), m, lw), acts)
      {
        ghost var before := Now();
        WalkIds(nodes[i], ChildId(prefix, i), m, lw, acts);
        GrownByOneNode(old(Now()), before, Now(), nodes, prefix, i, m, lw, acts);
      }
      assert nodes[..|nodes|] == nodes;
    }

    /** The whole tree: the tables count every leaf, in its own wave and under its own module. */
    method WalkTree(tree: seq<TreeModule>, lw: map<string, string>, acts: Acts)
      modifies this
      ensures Grown(old(Now()), Now(), TreeLeaves(tree, lw), acts)
    {
      for i := 0 to |tree|
        invariant Grown(old(Now()), Now(), TreeLeaves(tree[..i], lw), acts)
      {
        ghost var before := Now();
        var m := tree[i];
        WalkAll(m.tasks, m.id, m, lw, acts);
        assert tree[..i + 1][..i] == tree[..i];
        GrownTogether(old(Now()), before, Now(), TreeLeaves(tree[..i], lw), Placed(RenderedAll(m.tasks, m.id, 0), m, lw), acts);
      }
      assert tree[..|tree|] == tree;
    }
  }

  /**
   However the waves are listed, the walk's tables add up: every leaf is in one wave, every unflagged
   leaf in one wave's buildable count, and a wave's leaves are those its modules have there.
   */
  lemma TheTablesAddUp(t: Tables, ls: seq<Leaf>, acts: Acts, ws: seq<string>, ms: seq<string>, w: string)
    requires Grown(Tables(map[], map[], map[]), t, ls, acts)
    requires NoDuplicates(ws) && NoDuplicates(ms)
    requires forall l | l in ls :: l.wave in ws && l.mod in ms
    ensures SumAt(t.waves, ws) == |ls|
    ensures SumAt(t.buildable, ws) == Count(ls, FreeLeaf(acts))
    ensures SumHere(t.here, w, ms) == Get(t.waves, w)
  {
    SumAtIs(t.waves, ls, AnyLeaf(), LeafWave(), ws);
    SumAtIs(t.buildable, ls, FreeLeaf(acts), LeafWave(), ws);
    EachIsCountedOnce(ls, AnyLeaf(), LeafWave(), ws);
    EachIsCountedOnce(ls, FreeLeaf(acts), LeafWave(), ws);
    CountAll(ls, AnyLeaf());
    SumHereIs(t, ls, acts, w, ms);
    EachIsCountedOnce(ls, InWave(w), LeafModule(), ms);
  }

  function SumAt(m: map<string, nat>, ks: seq<string>): nat {
    if ks == [] then 0 else Get(m, ks[0]) + SumAt(m, ks[1..])
  }

  function SumHere(m: map<(string, string), nat>, w: string, ks: seq<string>): nat {
    if ks == [] then 0 else Get(m, (w, ks[0])) + SumHere(m, w, ks[1..])
  }

  lemma {:induction false} SumAtIs<T>(m: map<string, nat>, xs: seq<T>, p: T -> bool, key: T -> string, ks: seq<string>)
    requires forall k | k in ks :: Get(m, k) == Count(xs, Keyed(p, key, k))
    ensures SumAt(m, ks) == SumBy(xs, p, key, ks)
  {
    if ks != [] {
      SumAtIs(m, xs, p, key, ks[1..]);
    }
  }

  lemma {:induction false} SumHereIs(t: Tables, ls: seq<Leaf>, acts: Acts, w: string, ks: seq<string>)
    requires Grown(Tables(map[], map[], map[]), t, ls, acts)
    ensures SumHere(t.here, w, ks) == SumBy(ls, InWave(w), LeafModule(), ks)
  {
    if ks != [] {
      SumHereIs(t, ls, acts, w, ks[1..]);
    }
  }

  lemma {:induction false} CountAll<T>(xs: seq<T>, p: T -> bool)
    requires forall x | x in xs :: p(x)
    ensures Count(xs, p) == |xs|
  {
    if xs != [] {
      CountAll(xs[..|xs| - 1], p);
    }
  }

  // ------------------------------------------------------------ refresh

  datatype Mark = Act | Decided

  /** A leaf's checkbox and what its attributes say. */
  datatype Box = Box(id: string, mark: Option<Mark>, wave: string, status: string)

  /** What the page knows: the closed leaves, the built ones, and each module's wave. */
  datatype Page = Page(closed: set<string>, built: set<string>, waveOf: map<string, string>)

  /** `id.split(".")[0]`. */
  function ModuleOf(id: string): string {
    id[..IndexOfChar(id, '.')]
  }

  function WaveOfBox(page: Page, b: Box): string {
    if b.wave != "" then b.wave
    else if ModuleOf(b.id) in page.waveOf then page.waveOf[ModuleOf(b.id)] else "undefined"
  }

  function StatusOfBox(b: Box): string {
    if b.status != "" then b.status else "OPEN"
  }

  function WaveIn(page: Page): Box -> string {
    (b: Box) => WaveOfBox(page, b)
  }

  function StatusIn(): Box -> string {
    (b: Box) => StatusOfBox(b)
  }

  function ModuleIn(): Box -> string {
    (b: Box) => ModuleOf(b.id)
  }

  function Counted(): Box -> bool {
    (b: Box) => b.mark.None?
  }

  function DoneBox(page: Page): Box -> bool {
    (b: Box) => b.mark.None? && b.id in page.closed
  }

  function OpenBox(page: Page): Box -> bool {
    (b: Box) => b.mark.None? && b.id !in page.closed
  }

  function BuiltBox(page: Page): Box -> bool {
    (b: Box) => b.mark.None? && b.id !in page.closed && b.id in page.built
  }

  function ActLeft(page: Page): Box -> bool {
    (b: Box) => b.mark == Some(Act) && b.id !in page.closed
  }

  /** The open boxes of a wave. */
  function OpenIn(page: Page, w: string): Box -> bool {
    Keyed(OpenBox(page), WaveIn(page), w)
  }

  datatype WaveTally = WaveTally(d: nat, t: nat, b: nat, s: map<string, nat>)

  datatype ModTally = ModTally(d: nat, t: nat)

  datatype Figures = Figures(done: nat, buildDone: nat, actsLeft: nat, builtN: nat, byStatus: map<string, nat>,
                             byWave: map<string, WaveTally>, byMod: map<string, ModTally>)

  /** One wave's line, against the boxes themselves. */
  ghost predicate WaveTallied(byWave: map<string, WaveTally>, boxes: seq<Box>, page: Page, w: string) {
    && (w in byWave <==> Count(boxes, Keyed(Counted(), WaveIn(page), w)) > 0)
    && (w in byWave ==>
          && byWave[w].t == Count(boxes, Keyed(Counted(), WaveIn(page), w))
          && byWave[w].d == Count(boxes, Keyed(DoneBox(page), WaveIn(page), w))
          && byWave[w].b == Count(boxes, Keyed(BuiltBox(page), WaveIn(page), w))
          && forall st :: Get(byWave[w].s, st) == Count(boxes, Keyed(OpenIn(page, w), StatusIn(), st)))
  }

  /** One module's line, against the boxes themselves. */
  ghost predicate ModTallied(byMod: map<string, ModTally>, boxes: seq<Box>, page: Page, m: string) {
    && (m in byMod <==> Count(boxes, Keyed(Counted(), ModuleIn(), m)) > 0)
    && (m in byMod ==>
          && byMod[m].t == Count(boxes, Keyed(Counted(), ModuleIn(), m))
          && byMod[m].d == Count(boxes, Keyed(DoneBox(page), ModuleIn(), m)))
  }

  ghost predicate WavesTallied(byWave: map<string, WaveTally>, boxes: seq<Box>, page: Page) {
    forall w :: WaveTallied(byWave, boxes, page, w)
  }

  ghost predicate ModsTallied(byMod: map<string, ModTally>, boxes: seq<Box>, page: Page) {
    forall m :: ModTallied(byMod, boxes, page, m)
  }

  ghost predicate StatusesTallied(byStatus: map<string, nat>, boxes: seq<Box>, page: Page) {
    forall st :: Get(byStatus, st) == Count(boxes, Keyed(OpenBox(page), StatusIn(), st))
  }

  ghost predicate Tallied(c: Figures, boxes: seq<Box>, page: Page) {
    && c.done == c.buildDone == Count(boxes, DoneBox(page))
    && c.actsLeft == Count(boxes, ActLeft(page))
    && c.builtN == Count(boxes, BuiltBox(page))
    && StatusesTallied(c.byStatus, boxes, page)
    && WavesTallied(c.byWave, boxes, page)
    && ModsTallied(c.byMod, boxes, page)
  }

  /** `byWave[w] || {d:0, t:0, b:0, s:{}}`. */
  function WaveAt(byWave: map<string, WaveTally>, w: string): WaveTally {
    if w in byWave then byWave[w] else WaveTally(0, 0, 0, map[])
  }

  function ModAt(byMod: map<string, ModTally>, m: string): ModTally {
    if m in byMod then byMod[m] else ModTally(0, 0)
  }

  /** One box more in its wave's line. */
  function WaveWith(o: WaveTally, b: Box, page: Page): WaveTally {
    var closed := b.id in page.closed;
    WaveTally(o.d + (if closed then 1 else 0), o.t + 1, o.b + (if !closed && b.id in page.built then 1 else 0),
              if closed then o.s else o.s[StatusOfBox(b) := Get(o.s, StatusOfBox(b)) + 1])
  }

  lemma SnocOf(boxes: seq<Box>, b: Box, p: Box -> bool)
    ensures Count(boxes + [b], p) == Count(boxes, p) + if p(b) then 1 else 0
  {
    assert (boxes + [b])[..|boxes|] == boxes;
  }

  lemma WaveTalliedNext(byWave: map<string, WaveTally>, boxes: seq<Box>, b: Box, page: Page, w: string)
    requires b.mark.None? && WaveTallied(byWave, boxes, page, w)
    requires w !in byWave ==> CountsNothing(boxes, page, w)
    ensures var at := WaveOfBox(page, b);
            WaveTallied(byWave[at := WaveWith(WaveAt(byWave, at), b, page)], boxes + [b], page, w)
  {
    SnocOf(boxes, b, Keyed(Counted(), WaveIn(page), w));
    SnocOf(boxes, b, Keyed(DoneBox(page), WaveIn(page), w));
    SnocOf(boxes, b, Keyed(BuiltBox(page), WaveIn(page), w));
    forall st
      ensures Count(boxes + [b], Keyed(OpenIn(page, w), StatusIn(), st))
           == Count(boxes, Keyed(OpenIn(page, w), StatusIn(), st))
              + if Keyed(OpenIn(page, w), StatusIn(), st)(b) then 1 else 0
    {
      SnocOf(boxes, b, Keyed(OpenIn(page, w), StatusIn(), st));
    }
  }

  /** A wave with nothing counted in it has nothing done, built or open in it either. */
  ghost predicate CountsNothing(boxes: seq<Box>, page: Page, w: string) {
    && Count(boxes, Keyed(DoneBox(page), WaveIn(page), w)) == 0
    && Count(boxes, Keyed(BuiltBox(page), WaveIn(page), w)) == 0
    && forall st :: Count(boxes, Keyed(OpenIn(page, w), StatusIn(), st)) == 0
  }

  lemma NothingCounted(boxes: seq<Box>, page: Page, w: string)
    requires Count(boxes, Keyed(Counted(), WaveIn(page), w)) == 0
    ensures CountsNothing(boxes, page, w)
  {
    FewerCounted(boxes, Keyed(DoneBox(page), WaveIn(page), w), Keyed(Counted(), WaveIn(page), w));
    FewerCounted(boxes, Keyed(BuiltBox(page), WaveIn(page), w), Keyed(Counted(), WaveIn(page), w));
    forall st ensures Count(boxes, Keyed(OpenIn(page, w), StatusIn(), st)) == 0 {
      FewerCounted(boxes, Keyed(OpenIn(page, w), StatusIn(), st), Keyed(Counted(), WaveIn(page), w));
    }
  }

  lemma {:induction false} FewerCounted<T>(xs: seq<T>, p: T -> bool, q: T -> bool)
    requires forall x | x in xs :: p(x) ==> q(x)
    ensures Count(xs, p) <= Count(xs, q)
  {
    if xs != [] {
      FewerCounted(xs[..|xs| - 1], p, q);
    }
  }

  lemma ModTalliedNext(byMod: map<string, ModTally>, boxes: seq<Box>, b: Box, page: Page, m: string)
    requires b.mark.None? && ModTallied(byMod, boxes, page, m)
    ensures var o := ModAt(byMod, ModuleOf(b.id));
            ModTallied(byMod[ModuleOf(b.id) := ModTally(o.d + (if b.id in page.closed then 1 else 0), o.t + 1)],
                       boxes + [b], page, m)
  {
    SnocOf(boxes, b, Keyed(Counted(), ModuleIn(), m));
    SnocOf(boxes, b, Keyed(DoneBox(page), ModuleIn(), m));
    FewerCounted(boxes, Keyed(DoneBox(page), ModuleIn(), m), Keyed(Counted(), ModuleIn(), m));
  }

  /** A box out of every total moves no line. */
  lemma OutMovesNoWave(byWave: map<string, WaveTally>, boxes: seq<Box>, b: Box, page: Page, w: string)
    requires b.mark.Some? && WaveTallied(byWave, boxes, page, w)
    ensures WaveTallied(byWave, boxes + [b], page, w)
  {
    SnocOf(boxes, b, Keyed(Counted(), WaveIn(page), w));
    SnocOf(boxes, b, Keyed(DoneBox(page), WaveIn(page), w));
    SnocOf(boxes, b, Keyed(BuiltBox(page), WaveIn(page), w));
    forall st
      ensures Count(boxes + [b], Keyed(OpenIn(page, w), StatusIn(), st))
           == Count(boxes, Keyed(OpenIn(page, w), StatusIn(), st))
    {
      SnocOf(boxes, b, Keyed(OpenIn(page, w), StatusIn(), st));
    }
  }

  lemma OutMovesNoModule(byMod: map<string, ModTally>, boxes: seq<Box>, b: Box, page: Page, m: string)
    requires b.mark.Some? && ModTallied(byMod, boxes, page, m)
    ensures ModTallied(byMod, boxes + [b], page, m)
  {
    SnocOf(boxes, b, Keyed(Counted(), ModuleIn(), m));
    SnocOf(boxes, b, Keyed(DoneBox(page), ModuleIn(), m));
  }

  function WavesWith(byWave: map<string, WaveTally>, b: Box, page: Page): map<string, WaveTally> {
    var w := WaveOfBox(page, b);
    if b.mark.Some? then byWave else byWave[w := WaveWith(WaveAt(byWave, w), b, page)]
  }

  function ModsWith(byMod: map<string, ModTally>, b: Box, page: Page): map<string, ModTally> {
    var o := ModAt(byMod, ModuleOf(b.id));
    if b.mark.Some? then byMod
    else byMod[ModuleOf(b.id) := ModTally(o.d + (if b.id in page.closed then 1 else 0), o.t + 1)]
  }

  /** The wave lines after one box more, whichever kind it is. */
  lemma WavesNext(byWave: map<string, WaveTally>, boxes: seq<Box>, b: Box, page: Page)
    requires WavesTallied(byWave, boxes, page)
    ensures WavesTallied(WavesWith(byWave, b, page), boxes + [b], page)
  {
    var waves := WavesWith(byWave, b, page);
    forall w ensures WaveTallied(waves, boxes + [b], page, w) {
      assert WaveTallied(byWave, boxes, page, w);
      if b.mark.Some? {
        OutMovesNoWave(byWave, boxes, b, page, w);
      } else {
        if w !in byWave {
          NothingCounted(boxes, page, w);
        }
        WaveTalliedNext(byWave, boxes, b, page, w);
      }
    }
  }

  lemma ModsNext(byMod: map<string, ModTally>, boxes: seq<Box>, b: Box, page: Page)
    requires ModsTallied(byMod, boxes, page)
    ensures ModsTallied(ModsWith(byMod, b, page), boxes + [b], page)
  {
    var mods := ModsWith(byMod, b, page);
    forall m ensures ModTallied(mods, boxes + [b], page, m) {
      assert ModTallied(byMod, boxes, page, m);
      if b.mark.Some? {
        OutMovesNoModule(byMod, boxes, b, page, m);
      } else {
        ModTalliedNext(byMod, boxes, b, page, m);
      }
    }
  }

  function StatusesWith(byStatus: map<string, nat>, b: Box, page: Page): map<string, nat> {
    var st := StatusOfBox(b);
    if OpenBox(page)(b) then byStatus[st := Get(byStatus, st) + 1] else byStatus
  }

  lemma StatusesNext(byStatus: map<string, nat>, boxes: seq<Box>, b: Box, page: Page)
    requires StatusesTallied(byStatus, boxes, page)
    ensures StatusesTallied(StatusesWith(byStatus, b, page), boxes + [b], page)
  {
    var next := StatusesWith(byStatus, b, page);
    forall st ensures Get(next, st) == Count(boxes + [b], Keyed(OpenBox(page), StatusIn(), st)) {
      SnocOf(boxes, b, Keyed(OpenBox(page), StatusIn(), st));
    }
  }

  /** The figures with one box more. */
  function FiguresWith(c: Figures, b: Box, page: Page): Figures {
    var done := if DoneBox(page)(b) then 1 else 0;
    Figures(c.done + done, c.buildDone + done,
            c.actsLeft + (if ActLeft(page)(b) then 1 else 0),
            c.builtN + (if BuiltBox(page)(b) then 1 else 0),
            StatusesWith(c.byStatus, b, page), WavesWith(c.byWave, b, page), ModsWith(c.byMod, b, page))
  }

  lemma TalliedNext(c: Figures, boxes: seq<Box>, b: Box, page: Page)
    requires Tallied(c, boxes, page)
    ensures Tallied(FiguresWith(c, b, page), boxes + [b], page)
  {
    SnocOf(boxes, b, DoneBox(page));
    SnocOf(boxes, b, ActLeft(page));
    SnocOf(boxes, b, BuiltBox(page));
    StatusesNext(c.byStatus, boxes, b, page);
    WavesNext(c.byWave, boxes, b, page);
    ModsNext(c.byMod, boxes, b, page);
  }

  lemma NothingTallied(page: Page)
    ensures Tallied(Figures(0, 0, 0, 0, map[], map[], map[]), [], page)
  {
  }

  /** `refresh`: one pass over the boxes, after which every figure is a count of boxes. */
  method Refresh(boxes: seq<Box>, page: Page) returns (c: Figures)
    ensures Tallied(c, boxes, page)
  {
    var done, buildDone, actsLeft, builtN := 0, 0, 0, 0;
    var byStatus: map<string, nat> := map[];
    var byWave: map<string, WaveTally> := map[];
    var byMod: map<string, ModTally> := map[];
    NothingTallied(page);
    for i := 0 to |boxes|
      invariant Tallied(Figures(done, buildDone, actsLeft, builtN, byStatus, byWave, byMod), boxes[..i], page)
    {
      var b := boxes[i];
      assert boxes[..i + 1] == boxes[..i] + [b];
      ghost var before := Figures(done, buildDone, actsLeft, builtN, byStatus, byWave, byMod);
      TalliedNext(before, boxes[..i], b, page);
      var closed := b.id in page.closed;
      if b.mark == Some(Act) && !closed {
        actsLeft := actsLeft + 1;
      }
      if b.mark.None? && closed {
        buildDone := buildDone + 1;
      }
      if b.mark.None? {
        var w, m, st := WaveOfBox(page, b), ModuleOf(b.id), StatusOfBox(b);
        if !closed && b.id in page.built {
          builtN := builtN + 1;
        }
        if !closed {
          byStatus := byStatus[st := Get(byStatus, st) + 1];
        }
        byWave := byWave[w := WaveWith(WaveAt(byWave, w), b, page)];
        var o := ModAt(byMod, m);
        byMod := byMod[m := ModTally(o.d + (if closed then 1 else 0), o.t + 1)];
        if closed {
          done := done + 1;
        }
      }
      assert Figures(done, buildDone, actsLeft, builtN, byStatus, byWave, byMod) == FiguresWith(before, b, page);
    }
    assert boxes[..|boxes|] == boxes;
    c := Figures(done, buildDone, actsLeft, builtN, byStatus, byWave, byMod);
  }

  /** One group's `done/total`, from the boxes its prefix picks out. */
  method GroupProgress(boxes: seq<Box>, page: Page, group: string) returns (t: nat, d: nat)
    ensures t == Count(boxes, Keyed(Counted(), InGroup(group), "in"))
    ensures d == Count(boxes, Keyed(DoneBox(page), InGroup(group), "in"))
  {
    t, d := 0, 0;
    for i := 0 to |boxes|
      invariant t == Count(boxes[..i], Keyed(Counted(), InGroup(group), "in"))
      invariant d == Count(boxes[..i], Keyed(DoneBox(page), InGroup(group), "in"))
    {
      CountSnoc(boxes, i, Keyed(Counted(), InGroup(group), "in"));
      CountSnoc(boxes, i, Keyed(DoneBox(page), InGroup(group), "in"));
      if Descends(group, boxes[i].id) && boxes[i].mark.None? {
        t := t + 1;
        if boxes[i].id in page.closed {
          d := d + 1;
        }
      }
    }
    assert boxes[..|boxes|] == boxes;
  }

  function InGroup(group: string): Box -> string {
    (b: Box) => if Descends(group, b.id) then "in" else "out"
  }
}
