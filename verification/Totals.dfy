/**
 What the tracker's numbers come to: the walk, the flags and the page count one set of leaves.
 */
module Totals {
  import opened Wrappers
  import opened Text
  import opened Numbering
  import opened Counting
  import opened Progress

  // ------------------------------------------------------------ the page adds up

  function SumTally<T>(lines: map<string, T>, f: T -> nat, ks: seq<string>): nat {
    if ks == [] then 0 else (if ks[0] in lines then f(lines[ks[0]]) else 0) + SumTally(lines, f, ks[1..])
  }

  lemma {:induction false} SumTallyIs<T, B>(lines: map<string, T>, f: T -> nat, boxes: seq<B>, p: B -> bool,
                                            key: B -> string, ks: seq<string>)
    requires forall k | k in ks :: (if k in lines then f(lines[k]) else 0) == Count(boxes, Keyed(p, key, k))
    ensures SumTally(lines, f, ks) == SumBy(boxes, p, key, ks)
  {
    if ks != [] {
      SumTallyIs(lines, f, boxes, p, key, ks[1..]);
    }
  }

  /** A listing of a map's keys, each once. */
  ghost predicate Lists<T>(ks: seq<string>, m: map<string, T>) {
    NoDuplicates(ks) && forall k :: k in ks <==> k in m
  }

  lemma CountedHasALine(c: Figures, boxes: seq<Box>, page: Page, b: Box)
    requires Tallied(c, boxes, page) && b in boxes && b.mark.None?
    ensures WaveOfBox(page, b) in c.byWave && ModuleOf(b.id) in c.byMod
  {
    var w, m := WaveOfBox(page, b), ModuleOf(b.id);
    CountedIsThere(boxes, Keyed(Counted(), WaveIn(page), w));
    CountedIsThere(boxes, Keyed(Counted(), ModuleIn(), m));
    assert Keyed(Counted(), WaveIn(page), w)(b) && Keyed(Counted(), ModuleIn(), m)(b);
    assert WaveTallied(c.byWave, boxes, page, w) && ModTallied(c.byMod, boxes, page, m);
  }

  /** The wave lines share out the page's total, what is done and what is built, and so do the modules'. */
  lemma TheLinesAddUp(c: Figures, boxes: seq<Box>, page: Page, ws: seq<string>, ms: seq<string>)
    requires Tallied(c, boxes, page) && Lists(ws, c.byWave) && Lists(ms, c.byMod)
    ensures SumTally(c.byWave, (o: WaveTally) => o.t, ws) == Count(boxes, Counted())
    ensures SumTally(c.byWave, (o: WaveTally) => o.d, ws) == c.done
    ensures SumTally(c.byWave, (o: WaveTally) => o.b, ws) == c.builtN
    ensures SumTally(c.byMod, (o: ModTally) => o.t, ms) == Count(boxes, Counted())
    ensures SumTally(c.byMod, (o: ModTally) => o.d, ms) == c.done
  {
    forall b | b in boxes && b.mark.None? ensures WaveOfBox(page, b) in ws && ModuleOf(b.id) in ms {
      CountedHasALine(c, boxes, page, b);
    }
    forall w | w in ws ensures WaveTallied(c.byWave, boxes, page, w) {
    }
    forall m | m in ms ensures ModTallied(c.byMod, boxes, page, m) {
    }
    SumTallyIs(c.byWave, (o: WaveTally) => o.t, boxes, Counted(), WaveIn(page), ws);
    SumTallyIs(c.byWave, (o: WaveTally) => o.d, boxes, DoneBox(page), WaveIn(page), ws);
    SumTallyIs(c.byWave, (o: WaveTally) => o.b, boxes, BuiltBox(page), WaveIn(page), ws);
    SumTallyIs(c.byMod, (o: ModTally) => o.t, boxes, Counted(), ModuleIn(), ms);
    SumTallyIs(c.byMod, (o: ModTally) => o.d, boxes, DoneBox(page), ModuleIn(), ms);
    EachIsCountedOnce(boxes, Counted(), WaveIn(page), ws);
    EachIsCountedOnce(boxes, DoneBox(page), WaveIn(page), ws);
    EachIsCountedOnce(boxes, BuiltBox(page), WaveIn(page), ws);
    EachIsCountedOnce(boxes, Counted(), ModuleIn(), ms);
    EachIsCountedOnce(boxes, DoneBox(page), ModuleIn(), ms);
  }

  /** In each wave, what is done and what is open by status come to its total. */
  lemma DoneAndOpenAreAll(c: Figures, boxes: seq<Box>, page: Page, w: string, statuses: seq<string>)
    requires Tallied(c, boxes, page) && w in c.byWave
    requires NoDuplicates(statuses) && forall b | b in boxes && b.mark.None? :: StatusOfBox(b) in statuses
    ensures c.byWave[w].d + SumAt(c.byWave[w].s, statuses) == c.byWave[w].t
    ensures c.byWave[w].b <= SumAt(c.byWave[w].s, statuses)
  {
    assert WaveTallied(c.byWave, boxes, page, w);
    SumAtIs(c.byWave[w].s, boxes, OpenIn(page, w), StatusIn(), statuses);
    EachIsCountedOnce(boxes, OpenIn(page, w), StatusIn(), statuses);
    CountSplits(boxes, Keyed(Counted(), WaveIn(page), w), Keyed(DoneBox(page), WaveIn(page), w), OpenIn(page, w));
    FewerCounted(boxes, Keyed(BuiltBox(page), WaveIn(page), w), OpenIn(page, w));
  }

  lemma OneOfTwoMarks(b: Box)
    ensures b.mark != None <==> b.mark == Some(Act) || b.mark == Some(Decided)
  {
    match b.mark
    case None =>
    case Some(m) => assert m == Act || m == Decided;
  }

  /** Every box is one thing: done, open, an act left, an act that is closed, or decided. */
  lemma EveryBoxIsOneThing(c: Figures, boxes: seq<Box>, page: Page)
    requires Tallied(c, boxes, page)
    ensures |boxes| == c.done + Count(boxes, OpenBox(page)) + c.actsLeft
                       + Count(boxes, (b: Box) => b.mark == Some(Act) && b.id in page.closed)
                       + Count(boxes, (b: Box) => b.mark == Some(Decided))
  {
    var flagged := (b: Box) => b.mark != None;
    var act := (b: Box) => b.mark == Some(Act);
    CountAll(boxes, (b: Box) => true);
    CountSplits(boxes, (b: Box) => true, Counted(), flagged);
    CountSplits(boxes, Counted(), DoneBox(page), OpenBox(page));
    forall b | b in boxes ensures flagged(b) == (act(b) || b.mark == Some(Decided)) {
      OneOfTwoMarks(b);
    }
    CountSplits(boxes, flagged, act, (b: Box) => b.mark == Some(Decided));
    CountSplits(boxes, act, ActLeft(page), (b: Box) => b.mark == Some(Act) && b.id in page.closed);
  }

  // ------------------------------------------------------------ the page counts the tree

  function FlagOf(acts: seq<(string, Flag)>, id: string): Option<Flag> {
    if acts == [] then None
    else if acts[0].0 == id then Some(acts[0].1)
    else FlagOf(acts[1..], id)
  }

  lemma {:induction false} FlagOfFlagged(acts: seq<(string, Flag)>, id: string)
    ensures FlagOf(acts, id).Some? <==> exists i | 0 <= i < |acts| :: acts[i].0 == id
  {
    if acts != [] {
      FlagOfFlagged(acts[1..], id);
      if FlagOf(acts[1..], id).Some? {
        var i :| 0 <= i < |acts[1..]| && acts[1..][i].0 == id;
        assert acts[i + 1].0 == id;
      }
      if exists i | 0 <= i < |acts| :: acts[i].0 == id {
        var i :| 0 <= i < |acts| && acts[i].0 == id;
        assert i > 0 ==> acts[1..][i - 1].0 == id;
      }
    }
  }

  /** What the page is made from: the tree, the leaves' own waves, the flags and the hand-set statuses. */
  datatype Source = Source(tree: seq<TreeModule>, lw: map<string, string>, acts: Acts, status: map<string, string>)

  /** Modules with different ids, none with a dot in it, and no wave without a name. */
  predicate IsSource(s: Source) {
    && (forall i, j | 0 <= i < j < |s.tree| :: s.tree[i].id != s.tree[j].id)
    && (forall i | 0 <= i < |s.tree| :: '.' !in s.tree[i].id && s.tree[i].wave != "")
    && (forall id | id in s.lw :: s.lw[id] != "")
  }

  /** `MODWAVE`. */
  function ModWave(tree: seq<TreeModule>): map<string, string> {
    if tree == [] then map[] else ModWave(tree[..|tree| - 1])[tree[|tree| - 1].id := tree[|tree| - 1].wave]
  }

  /** The checkbox `renderNode` writes for a leaf: the wave comes from its id's first segment. */
  function BoxOf(s: Source, id: string): Box {
    var mark := match FlagOf(s.acts, id) {
      case None => None
      case Some(f) => if f.kind == "DECIDED" then Some(Decided) else Some(Act)
    };
    var modWave := if ModuleOf(id) in ModWave(s.tree) then ModWave(s.tree)[ModuleOf(id)] else "undefined";
    Box(id, mark, WaveOfLeaf(s.lw, id, modWave), if id in s.status then s.status[id] else "OPEN")
  }

  function BoxesOf(s: Source, leaves: seq<Leaf>): seq<Box> {
    seq(|leaves|, i requires 0 <= i < |leaves| => BoxOf(s, leaves[i].id))
  }

  function Leaves(s: Source): seq<Leaf> {
    TreeLeaves(s.tree, s.lw)
  }

  function Ids(leaves: seq<Leaf>): seq<string> {
    seq(|leaves|, i requires 0 <= i < |leaves| => leaves[i].id)
  }

  /** Counting two lists of the same length that agree place by place. */
  lemma {:induction false} CountAlike<A, B>(xs: seq<A>, ys: seq<B>, p: A -> bool, q: B -> bool)
    requires |xs| == |ys| && forall i | 0 <= i < |xs| :: p(xs[i]) == q(ys[i])
    ensures Count(xs, p) == Count(ys, q)
  {
    if xs != [] {
      CountAlike(xs[..|xs| - 1], ys[..|ys| - 1], p, q);
    }
  }

  lemma FirstSegment(mod: string, i: nat, id: string)
    requires '.' !in mod && Under(ChildId(mod, i), id)
    ensures ModuleOf(id) == mod
  {
    var pre := ChildId(mod, i);
    assert id[..|pre|] == pre;
    assert id == mod + ['.'] + id[|mod| + 1..] by {
      assert id[..|mod|] == pre[..|mod|] == mod;
      assert id[|mod|] == pre[|mod|] == '.';
    }
    IndexAfter(mod, '.', id[|mod| + 1..]);
  }

  lemma {:induction false} ModWaveHolds(tree: seq<TreeModule>, i: nat)
    requires i < |tree| && forall j, k | 0 <= j < k < |tree| :: tree[j].id != tree[k].id
    ensures tree[i].id in ModWave(tree) && ModWave(tree)[tree[i].id] == tree[i].wave
  {
    if i < |tree| - 1 {
      ModWaveHolds(tree[..|tree| - 1], i);
    }
  }

  /** Where a leaf of the tree came from. */
  lemma {:induction false} LeafIsFromItsModule(tree: seq<TreeModule>, lw: map<string, string>, l: Leaf) returns (i: nat)
    requires l in TreeLeaves(tree, lw)
    requires forall j | 0 <= j < |tree| :: '.' !in tree[j].id
    ensures i < |tree| && l.mod == tree[i].id == ModuleOf(l.id) && l.wave == WaveOfLeaf(lw, l.id, tree[i].wave)
  {
    var m := tree[|tree| - 1];
    var here := RenderedAll(m.tasks, m.id, 0);
    if l in TreeLeaves(tree[..|tree| - 1], lw) {
      i := LeafIsFromItsModule(tree[..|tree| - 1], lw, l);
    } else {
      i := |tree| - 1;
      var k :| 0 <= k < |here| && Placed(here, m, lw)[k] == l;
      RenderedAllUnder(m.tasks, m.id, 0);
      assert here[k] in here;
      var n: nat :| Under(ChildId(m.id, n), l.id);
      FirstSegment(m.id, n, l.id);
    }
  }

  /** A leaf that has a wave of its own is counted in that one, and any other in its module's. */
  lemma ALeafsOwnWave(s: Source, l: Leaf)
    requires IsSource(s) && l in Leaves(s)
    ensures l.id in s.lw ==> l.wave == s.lw[l.id]
    ensures l.id !in s.lw ==> exists i | 0 <= i < |s.tree| :: s.tree[i].id == l.mod && s.tree[i].wave == l.wave
  {
    var i := LeafIsFromItsModule(s.tree, s.lw, l);
  }

  /** A leaf's box carries the wave the walk counted it in, and the module it is in. */
  lemma BoxAgreesWithLeaf(s: Source, page: Page, l: Leaf)
    requires IsSource(s) && l in Leaves(s)
    ensures WaveOfBox(page, BoxOf(s, l.id)) == l.wave && ModuleOf(l.id) == l.mod
    ensures BoxOf(s, l.id).mark.None? <==> !Flagged(s.acts, l.id)
    ensures BoxOf(s, l.id).mark == Some(Decided) <==> exists i | 0 <= i < |s.acts| :: IsDecidedFlagOn(s.acts[i], l.id)
  {
    var i := LeafIsFromItsModule(s.tree, s.lw, l);
    ModWaveHolds(s.tree, i);
    FlagOfFlagged(s.acts, l.id);
    FlagOfIs(s.acts, l.id);
  }

  predicate IsDecidedFlagOn(flag: (string, Flag), id: string) {
    flag.0 == id && flag.1.kind == "DECIDED"
  }

  /** The flag found for an id is the one there is. */
  lemma {:induction false} FlagOfIs(acts: seq<(string, Flag)>, id: string)
    requires forall i, j | 0 <= i < j < |acts| :: acts[i].0 != acts[j].0
    ensures forall i | 0 <= i < |acts| && acts[i].0 == id :: FlagOf(acts, id) == Some(acts[i].1)
    ensures FlagOf(acts, id).Some? ==> exists i | 0 <= i < |acts| :: acts[i] == (id, FlagOf(acts, id).value)
  {
    if acts != [] && acts[0].0 != id {
      FlagOfIs(acts[1..], id);
      forall i | 0 <= i < |acts| && acts[i].0 == id ensures FlagOf(acts, id) == Some(acts[i].1) {
        assert acts[1..][i - 1] == acts[i];
      }
      if FlagOf(acts, id).Some? {
        var i :| 0 <= i < |acts[1..]| && acts[1..][i] == (id, FlagOf(acts, id).value);
        assert acts[i + 1] == (id, FlagOf(acts, id).value);
      }
    }
  }

  /** A leaf nobody has given a status counts as open, whether its box says so or says nothing. */
  lemma AnUnmarkedLeafIsOpen(s: Source, id: string, b: Box)
    ensures id !in s.status ==> StatusOfBox(BoxOf(s, id)) == "OPEN"
    ensures id in s.status && s.status[id] != "" ==> StatusOfBox(BoxOf(s, id)) == s.status[id]
    ensures b.status == "" ==> StatusOfBox(b) == "OPEN"
  {
  }

  lemma BoxCount(s: Source, page: Page, leaves: seq<Leaf>, w: string)
    requires IsSource(s) && forall l | l in leaves :: l in Leaves(s)
    ensures Count(BoxesOf(s, leaves), Counted()) == Count(leaves, FreeLeaf(s.acts))
    ensures Count(BoxesOf(s, leaves), Keyed(Counted(), WaveIn(page), w))
         == Count(leaves, Keyed(FreeLeaf(s.acts), LeafWave(), w))
  {
    forall i | 0 <= i < |leaves|
      ensures Counted()(BoxesOf(s, leaves)[i]) == FreeLeaf(s.acts)(leaves[i])
      ensures Keyed(Counted(), WaveIn(page), w)(BoxesOf(s, leaves)[i])
           == Keyed(FreeLeaf(s.acts), LeafWave(), w)(leaves[i])
    {
      BoxAgreesWithLeaf(s, page, leaves[i]);
    }
    CountAlike(BoxesOf(s, leaves), leaves, Counted(), FreeLeaf(s.acts));
    CountAlike(BoxesOf(s, leaves), leaves, Keyed(Counted(), WaveIn(page), w), Keyed(FreeLeaf(s.acts), LeafWave(), w));
  }

  /** No two leaves of the breakdown share an id, within a module or across them. */
  lemma {:induction false} AllIdsAreDistinct(tree: seq<TreeModule>, lw: map<string, string>)
    requires forall i, j | 0 <= i < j < |tree| :: tree[i].id != tree[j].id
    requires forall i | 0 <= i < |tree| :: '.' !in tree[i].id
    ensures NoDuplicates(Ids(TreeLeaves(tree, lw)))
  {
    if tree != [] {
      var m, front := tree[|tree| - 1], tree[..|tree| - 1];
      var before, here := TreeLeaves(front, lw), Placed(RenderedAll(m.tasks, m.id, 0), m, lw);
      AllIdsAreDistinct(front, lw);
      RenderedAllDistinct(m.tasks, m.id, 0);
      forall i, j | 0 <= i < |before| && 0 <= j < |here| ensures before[i].id != here[j].id {
        var a := LeafIsFromItsModule(front, lw, before[i]);
        assert here[j] in TreeLeaves([m], lw) by {
          assert TreeLeaves([m], lw) == [] + here;
        }
        var b := LeafIsFromItsModule([m], lw, here[j]);
      }
      forall i, j | 0 <= i < j < |here| ensures here[i].id != here[j].id {
      }
      IdsTogether(before, here);
    }
  }

  lemma IdsTogether(a: seq<Leaf>, b: seq<Leaf>)
    requires NoDuplicates(Ids(a))
    requires forall i, j | 0 <= i < j < |b| :: b[i].id != b[j].id
    requires forall i, j | 0 <= i < |a| && 0 <= j < |b| :: a[i].id != b[j].id
    ensures NoDuplicates(Ids(a + b))
  {
    var all := Ids(a + b);
    forall i, j | 0 <= i < j < |all| ensures all[i] != all[j] {
      if j < |a| {
        assert Ids(a)[i] != Ids(a)[j];
      }
    }
  }

  // ------------------------------------------------------------ the text table the flags are checked against

  /** A leaf's sentence. */
  function SentenceOf(n: Node): string {
    match n
    case Sentence(text) => text
    case Group(name, _, _) => name
  }

  /** `TEXT_OF` after these leaves, in the order they are read. */
  function TextsOf(xs: seq<Numbered>): map<string, string> {
    if xs == [] then map[] else TextsOf(xs[..|xs| - 1])[xs[|xs| - 1].0 := SentenceOf(xs[|xs| - 1].1)]
  }

  function AllRendered(tree: seq<TreeModule>): seq<Numbered> {
    if tree == [] then []
    else AllRendered(tree[..|tree| - 1]) + RenderedAll(tree[|tree| - 1].tasks, tree[|tree| - 1].id, 0)
  }

  lemma TextsSnoc(xs: seq<Numbered>, x: Numbered)
    ensures TextsOf(xs + [x]) == TextsOf(xs)[x.0 := SentenceOf(x.1)]
  {
    assert (xs + [x])[..|xs|] == xs;
  }

  lemma {:induction false} TextsTogether(xs: seq<Numbered>, ys: seq<Numbered>)
    ensures TextsOf(xs + ys) == TextsOf(xs) + TextsOf(ys)
  {
    if ys == [] {
      assert xs + ys == xs;
    } else {
      var front, last := ys[..|ys| - 1], ys[|ys| - 1];
      TextsTogether(xs, front);
      assert ys == front + [last] && xs + ys == (xs + front) + [last];
      TextsSnoc(xs + front, last);
    }
  }

  lemma {:induction false} ReadTogether(a: map<string, string>, b: map<string, string>, c: map<string, string>,
                     xs: seq<Numbered>, ys: seq<Numbered>)
    requires b == a + TextsOf(xs) && c == b + TextsOf(ys)
    ensures c == a + TextsOf(xs + ys)
  {
    TextsTogether(xs, ys);
  }

  lemma {:induction false} ReadOneNode(a: map<string, string>, b: map<string, string>, c: map<string, string>,
                    nodes: seq<Norm>, prefix: string, i: nat)
    requires i < |nodes| && b == a + TextsOf(RenderedAll(nodes[..i], prefix, 0))
    requires c == b + TextsOf(Rendered(nodes[i], ChildId(prefix, i)))
    ensures c == a + TextsOf(RenderedAll(nodes[..i + 1], prefix, 0))
  {
    var xs, ys := RenderedAll(nodes[..i], prefix, 0), Rendered(nodes[i], ChildId(prefix, i));
    assert RenderedAll(nodes[..i + 1], prefix, 0) == xs + ys by {
      RenderedAllSnoc(nodes, prefix, 0, i);
    }
    ReadTogether(a, b, c, xs, ys);
  }

  lemma {:induction false} ReadOneModule(a: map<string, string>, b: map<string, string>, c: map<string, string>,
                      tree: seq<TreeModule>, i: nat)
    requires i < |tree| && b == a + TextsOf(AllRendered(tree[..i]))
    requires c == b + TextsOf(RenderedAll(tree[i].tasks, tree[i].id, 0))
    ensures c == a + TextsOf(AllRendered(tree[..i + 1]))
  {
    ReadTogether(a, b, c, AllRendered(tree[..i]), RenderedAll(tree[i].tasks, tree[i].id, 0));
    assert tree[..i + 1][..i] == tree[..i];
  }

  class TextTable {
    var of: map<string, string>

    constructor ()
      ensures of == map[]
    {
      of := map[];
    }

    /** `readIds`: a leaf's sentence goes under its id, and anything else is read child by child. */
    method ReadIds(n: Norm, id: string)
      modifies this
      ensures of == old(of) + TextsOf(Rendered(n, id))
      decreases n, 0
    {
      if n.children == [] {
        of := of[id := n.name];
        assert Rendered(n, id)[..0] == [];
        return;
      }
      ReadAll(n.children, id);
    }

    method ReadAll(nodes: seq<Norm>, prefix: string)
      modifies this
      ensures of == old(of) + TextsOf(RenderedAll(nodes, prefix, 0))
      decreases nodes, 1
    {
      for i := 0 to |nodes|
        invariant of == old(of) + TextsOf(RenderedAll(nodes[..i], prefix, 0))
      {
        ghost var before := of;
        ReadIds(nodes[i], ChildId(prefix, i));
        ReadOneNode(old(of), before, of, nodes, prefix, i);
      }
      assert nodes[..|nodes|] == nodes;
    }

    /** The table of the whole tree. */
    method ReadTree(tree: seq<TreeModule>)
      modifies this
      ensures of == old(of) + TextsOf(AllRendered(tree))
    {
      for i := 0 to |tree|
        invariant of == old(of) + TextsOf(AllRendered(tree[..i]))
      {
        ghost var before := of;
        ReadAll(tree[i].tasks, tree[i].id);
        ReadOneModule(old(of), before, of, tree, i);
      }
      assert tree[..|tree|] == tree;
    }
  }

  lemma {:induction false} TextsAreOfTheIds(xs: seq<Numbered>, id: string)
    ensures id in TextsOf(xs) <==> exists i | 0 <= i < |xs| :: xs[i].0 == id
  {
    if xs != [] {
      var front := xs[..|xs| - 1];
      TextsAreOfTheIds(front, id);
      if id in TextsOf(front) {
        var i :| 0 <= i < |front| && front[i].0 == id;
        assert xs[i].0 == id;
      }
      if exists i | 0 <= i < |xs| :: xs[i].0 == id {
        var i :| 0 <= i < |xs| && xs[i].0 == id;
        assert i < |front| ==> front[i].0 == id;
      }
    }
  }

  /** The walk that sizes the waves and the one that reads the sentences give their leaves the same ids. */
  lemma {:induction false} OneListOfIds(tree: seq<TreeModule>, lw: map<string, string>)
    ensures |AllRendered(tree)| == |TreeLeaves(tree, lw)|
    ensures forall i | 0 <= i < |AllRendered(tree)| :: AllRendered(tree)[i].0 == TreeLeaves(tree, lw)[i].id
  {
    if tree != [] {
      OneListOfIds(tree[..|tree| - 1], lw);
    }
  }

  /** The text table has an entry for each leaf of the page and for nothing else. */
  lemma TheTableIsOfTheLeaves(s: Source, id: string)
    ensures id in TextsOf(AllRendered(s.tree)) <==> id in Ids(Leaves(s))
  {
    TextsAreOfTheIds(AllRendered(s.tree), id);
    OneListOfIds(s.tree, s.lw);
    if id in TextsOf(AllRendered(s.tree)) {
      var i :| 0 <= i < |AllRendered(s.tree)| && AllRendered(s.tree)[i].0 == id;
      assert Ids(Leaves(s))[i] == id;
    }
    if id in Ids(Leaves(s)) {
      var i :| 0 <= i < |Ids(Leaves(s))| && Ids(Leaves(s))[i] == id;
      assert AllRendered(s.tree)[i].0 == id;
    }
  }

  /** The flags check passes against the text table of this very tree. */
  predicate Checked(s: Source) {
    forall i | 0 <= i < |s.acts| :: Right(s.acts[i], TextsOf(AllRendered(s.tree)))
  }

  /**
   `BUILDABLE` is the number of unflagged leaves, and it is the total the page divides by, once the
   flags have been checked; and every wave's line has as many items as the walk counted buildable.
   */
  lemma BuildableIsThePagesTotal(s: Source, page: Page, c: Figures, t: Tables, w: string)
    requires IsSource(s) && Checked(s)
    requires Grown(Tables(map[], map[], map[]), t, Leaves(s), s.acts)
    requires Tallied(c, BoxesOf(s, Leaves(s)), page)
    ensures |Leaves(s)| - |s.acts| == Count(BoxesOf(s, Leaves(s)), Counted())
    ensures Get(t.buildable, w) == if w in c.byWave then c.byWave[w].t else 0
  {
    BoxCount(s, page, Leaves(s), w);
    CheckedTakesTheFlagsAway(s);
    assert WaveTallied(c.byWave, BoxesOf(s, Leaves(s)), page, w);
  }

  lemma CheckedNamesLeaves(s: Source)
    requires Checked(s)
    ensures forall i | 0 <= i < |s.acts| :: s.acts[i].0 in Ids(Leaves(s))
  {
    forall i | 0 <= i < |s.acts| ensures s.acts[i].0 in Ids(Leaves(s)) {
      TheTableIsOfTheLeaves(s, s.acts[i].0);
    }
  }

  lemma CheckedTakesTheFlagsAway(s: Source)
    requires IsSource(s) && Checked(s)
    ensures |Leaves(s)| - |s.acts| == Count(Leaves(s), FreeLeaf(s.acts))
  {
    var leaves := Leaves(s);
    CheckedNamesLeaves(s);
    AllIdsAreDistinct(s.tree, s.lw);
    TakingTheFlagsAway(Ids(leaves), s.acts);
    CountAlike(Ids(leaves), leaves, Unflagged(s.acts), FreeLeaf(s.acts));
  }

  /** The flags of one kind. */
  function DecidedOf(acts: Acts): (some: Acts)
    ensures forall f | f in some :: f in acts
  {
    if acts == [] then []
    else
      var front, last := acts[..|acts| - 1], acts[|acts| - 1];
      assert forall f | f in front :: f.0 != last.0;
      assert acts == front + [last];
      DecidedOf(front) + if IsDecided(last) then [last] else []
  }

  lemma {:induction false} DecidedOfIs(acts: Acts)
    ensures |DecidedOf(acts)| == Count(acts, IsDecided)
    ensures forall f :: f in DecidedOf(acts) <==> f in acts && IsDecided(f)
  {
    if acts != [] {
      DecidedOfIs(acts[..|acts| - 1]);
      assert acts == acts[..|acts| - 1] + [acts[|acts| - 1]];
    }
  }

  function DecidedMark(): Box -> bool {
    (b: Box) => b.mark == Some(Decided)
  }

  function ActMark(): Box -> bool {
    (b: Box) => b.mark == Some(Act)
  }

  lemma DecidedIsFlagged(s: Source, id: string)
    ensures Flagged(DecidedOf(s.acts), id) <==> exists i | 0 <= i < |s.acts| :: IsDecidedFlagOn(s.acts[i], id)
  {
    DecidedOfIs(s.acts);
    if Flagged(DecidedOf(s.acts), id) {
      var i :| 0 <= i < |DecidedOf(s.acts)| && DecidedOf(s.acts)[i].0 == id;
      var f := DecidedOf(s.acts)[i];
      assert f in DecidedOf(s.acts);
      var j :| 0 <= j < |s.acts| && s.acts[j] == f;
      assert IsDecidedFlagOn(s.acts[j], id);
    }
    if j :| 0 <= j < |s.acts| && IsDecidedFlagOn(s.acts[j], id) {
      assert s.acts[j] in DecidedOf(s.acts);
      var i :| 0 <= i < |DecidedOf(s.acts)| && DecidedOf(s.acts)[i] == s.acts[j];
      assert DecidedOf(s.acts)[i].0 == id;
    }
  }

  lemma UndecidedBoxes(s: Source)
    requires IsSource(s)
    ensures Count(BoxesOf(s, Leaves(s)), (b: Box) => !DecidedMark()(b))
         == Count(Ids(Leaves(s)), Unflagged(DecidedOf(s.acts)))
  {
    DecidedOfIs(s.acts);
    var boxes, ids := BoxesOf(s, Leaves(s)), Ids(Leaves(s));
    forall i | 0 <= i < |boxes| ensures !DecidedMark()(boxes[i]) == Unflagged(DecidedOf(s.acts))(ids[i]) {
      assert Leaves(s)[i] in Leaves(s);
      BoxAgreesWithLeaf(s, Page({}, {}, map[]), Leaves(s)[i]);
      DecidedIsFlagged(s, ids[i]);
    }
    CountAlike(boxes, ids, (b: Box) => !DecidedMark()(b), Unflagged(DecidedOf(s.acts)));
  }

  /** Once the flags are checked, the page has as many decided boxes and as many acts as the check counted. */
  lemma ThePageHasTheFlags(s: Source)
    requires IsSource(s) && Checked(s)
    ensures Count(BoxesOf(s, Leaves(s)), DecidedMark()) == Count(s.acts, IsDecided)
    ensures Count(BoxesOf(s, Leaves(s)), ActMark()) == |s.acts| - Count(s.acts, IsDecided)
  {
    var boxes, ids := BoxesOf(s, Leaves(s)), Ids(Leaves(s));
    var undecided := (b: Box) => !DecidedMark()(b);
    DecidedOfIs(s.acts);
    CheckedNamesLeaves(s);
    AllIdsAreDistinct(s.tree, s.lw);
    forall i | 0 <= i < |DecidedOf(s.acts)| ensures DecidedOf(s.acts)[i].0 in ids {
      assert DecidedOf(s.acts)[i] in s.acts;
    }
    TakingTheFlagsAway(ids, DecidedOf(s.acts));
    UndecidedBoxes(s);
    CountAll(boxes, (b: Box) => true);
    CountSplits(boxes, (b: Box) => true, DecidedMark(), undecided);
    CheckedTakesTheFlagsAway(s);
    BoxCount(s, Page({}, {}, map[]), Leaves(s), "");
    forall b | b in boxes ensures undecided(b) == (Counted()(b) || ActMark()(b)) {
      OneOfTwoMarks(b);
    }
    CountSplits(boxes, undecided, Counted(), ActMark());
  }

  /** `BUILDABLE`, from the tree and the flags: refused where the check refuses, and else the unflagged leaves. */
  method Buildable(s: Source) returns (r: Result<int, seq<Fault>>)
    requires IsSource(s)
    ensures r.Ok? <==> Checked(s)
    ensures r.Ok? ==> r.value == Count(BoxesOf(s, Leaves(s)), Counted())
  {
    var texts := new TextTable();
    texts.ReadTree(s.tree);
    assert texts.of == TextsOf(AllRendered(s.tree));
    var counts := Check(s.acts, texts.of);
    if counts.Err? {
      return Err(counts.error);
    }
    CheckedTakesTheFlagsAway(s);
    BoxCount(s, Page({}, {}, map[]), Leaves(s), "");
    r := Ok(|Leaves(s)| - counts.value.0 - counts.value.1);
  }

  // ------------------------------------------------------------ a group's figure

  function Root(m: TreeModule): Norm {
    Norm("", m.tasks)
  }

  function FreeNumbered(acts: Acts): Numbered -> bool {
    (x: Numbered) => !Flagged(acts, x.0)
  }

  lemma BoxesSnoc(s: Source, front: seq<Numbered>, last: Numbered, m: TreeModule)
    ensures BoxesOf(s, Placed(front + [last], m, s.lw)) == BoxesOf(s, Placed(front, m, s.lw)) + [BoxOf(s, last.0)]
  {
    PlacedTogether(front, [last], m, s.lw);
  }

  lemma DescendantsSnoc(front: seq<Numbered>, last: Numbered, group: string, p: Numbered -> bool)
    ensures Count(Descendants(front + [last], group), p)
         == Count(Descendants(front, group), p) + if Descends(group, last.0) && p(last) then 1 else 0
  {
    DescendantsTogether(front, [last], group);
    CountTogether(Descendants(front, group), Descendants([last], group), p);
    assert Descendants([last], group) == if Descends(group, last.0) then [last] else [];
  }

  /** The boxes a group's prefix counts are those of the leaves it picks out. */
  lemma {:induction false} GroupCount(s: Source, xs: seq<Numbered>, m: TreeModule, group: string)
    ensures Count(BoxesOf(s, Placed(xs, m, s.lw)), Keyed(Counted(), InGroup(group), "in"))
         == Count(Descendants(xs, group), FreeNumbered(s.acts))
  {
    if xs == [] {
      assert BoxesOf(s, Placed(xs, m, s.lw)) == [];
    } else {
      var front, last := xs[..|xs| - 1], xs[|xs| - 1];
      assert xs == front + [last];
      GroupCount(s, front, m, group);
      FlagOfFlagged(s.acts, last.0);
      BoxesSnoc(s, front, last, m);
      DescendantsSnoc(front, last, group, FreeNumbered(s.acts));
      SnocOf(BoxesOf(s, Placed(front, m, s.lw)), BoxOf(s, last.0), Keyed(Counted(), InGroup(group), "in"));
    }
  }

  /** What starts with a group's dotted id has the group's first segment. */
  lemma DescendantsShareTheModule(group: string, id: string)
    requires '.' in group
    ensures Descends(group, id) ==> ModuleOf(id) == ModuleOf(group)
  {
    if Descends(group, id) {
      var k := IndexOfChar(group, '.');
      assert id[..|group|] == id[..|group + "."|][..|group|] == group;
      assert id[..k] == id[..|group|][..k] && id[k] == id[..|group|][k];
      assert id == group[..k] + ['.'] + id[k + 1..];
      IndexAfter(group[..k], '.', id[k + 1..]);
    }
  }

  lemma NothingElsewhere(m: TreeModule, group: string)
    requires '.' !in m.id && ModuleOf(group) != m.id && '.' in group
    ensures Descendants(RenderedAll(m.tasks, m.id, 0), group) == []
  {
    var xs := RenderedAll(m.tasks, m.id, 0);
    RenderedAllUnder(m.tasks, m.id, 0);
    forall x | x in xs ensures !Descends(group, x.0) {
      var i: nat :| Under(ChildId(m.id, i), x.0);
      FirstSegment(m.id, i, x.0);
      DescendantsShareTheModule(group, x.0);
    }
    NoneDescend(xs, group);
  }

  lemma BoxesConcat(s: Source, a: seq<Leaf>, b: seq<Leaf>)
    ensures BoxesOf(s, a + b) == BoxesOf(s, a) + BoxesOf(s, b)
  {
    var all, apart := BoxesOf(s, a + b), BoxesOf(s, a) + BoxesOf(s, b);
    forall i | 0 <= i < |all| ensures |all| == |apart| && all[i] == apart[i] {
      assert (a + b)[i] == if i < |a| then a[i] else b[i - |a|];
    }
  }

  /** All the boxes of the page, module by module. */
  lemma BoxesTogether(s: Source, a: seq<Leaf>, b: seq<Leaf>, p: Box -> bool)
    ensures Count(BoxesOf(s, a + b), p) == Count(BoxesOf(s, a), p) + Count(BoxesOf(s, b), p)
  {
    BoxesConcat(s, a, b);
    CountTogether(BoxesOf(s, a), BoxesOf(s, b), p);
  }

  /** What the last module adds to the boxes a group's prefix counts. */
  lemma ModuleAdds(s: Source, tree: seq<TreeModule>, group: string)
    requires tree != []
    ensures var m, p := tree[|tree| - 1], Keyed(Counted(), InGroup(group), "in");
            Count(BoxesOf(s, TreeLeaves(tree, s.lw)), p)
              == Count(BoxesOf(s, TreeLeaves(tree[..|tree| - 1], s.lw)), p)
                 + Count(Descendants(RenderedAll(m.tasks, m.id, 0), group), FreeNumbered(s.acts))
  {
    var m := tree[|tree| - 1];
    var here := RenderedAll(m.tasks, m.id, 0);
    BoxesTogether(s, TreeLeaves(tree[..|tree| - 1], s.lw), Placed(here, m, s.lw),
                  Keyed(Counted(), InGroup(group), "in"));
    GroupCount(s, here, m, group);
  }

  lemma {:induction false} OneModulesGroup(s: Source, tree: seq<TreeModule>, i: nat, group: string)
    requires i < |tree| && ModuleOf(group) == tree[i].id && '.' in group
    requires forall j, k | 0 <= j < k < |tree| :: tree[j].id != tree[k].id
    requires forall j | 0 <= j < |tree| :: '.' !in tree[j].id
    ensures Count(BoxesOf(s, TreeLeaves(tree, s.lw)), Keyed(Counted(), InGroup(group), "in"))
         == Count(Descendants(RenderedAll(tree[i].tasks, tree[i].id, 0), group), FreeNumbered(s.acts))
  {
    var front := tree[..|tree| - 1];
    ModuleAdds(s, tree, group);
    if i < |tree| - 1 {
      OneModulesGroup(s, front, i, group);
      NothingElsewhere(tree[|tree| - 1], group);
    } else {
      NoModulesGroup(s, front, group);
    }
  }

  lemma {:induction false} NoModulesGroup(s: Source, tree: seq<TreeModule>, group: string)
    requires forall j | 0 <= j < |tree| :: '.' !in tree[j].id && tree[j].id != ModuleOf(group)
    requires '.' in group
    ensures Count(BoxesOf(s, TreeLeaves(tree, s.lw)), Keyed(Counted(), InGroup(group), "in")) == 0
  {
    if tree != [] {
      ModuleAdds(s, tree, group);
      NoModulesGroup(s, tree[..|tree| - 1], group);
      NothingElsewhere(tree[|tree| - 1], group);
    }
  }

  /**
   The total the page shows beside a group is the number of unflagged leaves drawn below that group,
   and of no other: whatever else on the page starts with the same characters is not counted.
   */
  lemma AGroupsFigureIsItsSubtree(s: Source, i: nat, path: seq<nat>)
    requires IsSource(s) && i < |s.tree| && path != []
    requires IsPath(Root(s.tree[i]), path) && At(Root(s.tree[i]), path).children != []
    ensures Count(BoxesOf(s, Leaves(s)), Keyed(Counted(), InGroup(IdAt(s.tree[i].id, path)), "in"))
         == Count(Rendered(At(Root(s.tree[i]), path), IdAt(s.tree[i].id, path)), FreeNumbered(s.acts))
  {
    var m, group := s.tree[i], IdAt(s.tree[i].id, path);
    IdAtIsUnder(ChildId(m.id, path[0]), path[1..]);
    FirstSegment(m.id, path[0], group);
    UnderChild(m.id, path[0], group);
    assert group[|m.id|] == '.';
    OneModulesGroup(s, s.tree, i, group);
    AGroupsPrefixPicksItsLeaves(Root(m), m.id, path);
  }
}
