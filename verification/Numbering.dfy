/**
 The work breakdown tree, and the two programs that number its leaves: `leaves` in
 docs/wbs/export.js and the walk over `norm` in docs/wbs/render.js.
 */
module Numbering {
  import opened Wrappers
  import opened Text

  /** A node is a sentence, or a name with children under `s`, under `k`, under both or neither. */
  datatype Node =
    | Sentence(text: string)
    | Group(name: string, s: Field, k: Field)

  /** A field holding children, if it is there at all. */
  datatype Field = Absent | Present(nodes: seq<Node>)

  /** A leaf as it is exported: its id, and whatever was found there. */
  type Numbered = (string, Node)

  function Children(field: Field): seq<Node> {
    match field
    case Present(nodes) => nodes
    case Absent => []
  }

  function ChildId(prefix: string, i: nat): string {
    prefix + "." + Decimal(i + 1)
  }

  /** Children are numbered from one: the tenth child of M0.2 is M0.2.10. */
  lemma ChildIdsFromOne()
    ensures ChildId("M0", 0) == "M0.1" && ChildId("M0.2", 9) == "M0.2.10"
  {
    assert Decimal(10) == Decimal(1) + [Digit(0)] == "10";
  }

  // ------------------------------------------------------------ export.js

  /** `leaves`: a node with both kinds of children throws, and it descends into `s` alone. */
  function Exported(node: Node, prefix: string): Option<seq<Numbered>>
    decreases node, 0
  {
    match node
    case Sentence(_) => Some([(prefix, node)])
    case Group(_, s, k) =>
      if Children(s) != [] && Children(k) != [] then None
      else
        match s
        case Absent => Some(Keys(Children(k), prefix, 0))
        case Present(kids) =>
          match ExportedKids(kids, prefix, 0)
          case None => None
          case Some(out) => Some(out + Keys(Children(k), prefix, |kids|))
  }

  function ExportedKids(kids: seq<Node>, prefix: string, from: nat): Option<seq<Numbered>>
    decreases kids, 1
  {
    if kids == [] then Some([])
    else
      match (Exported(kids[0], ChildId(prefix, from)), ExportedKids(kids[1..], prefix, from + 1))
      case (Some(first), Some(rest)) => Some(first + rest)
      case _ => None
  }

  /** `keys.forEach`: every entry is pushed as it is, whatever it is. */
  function Keys(keys: seq<Node>, prefix: string, from: nat): seq<Numbered> {
    if keys == [] then [] else [(ChildId(prefix, from), keys[0])] + Keys(keys[1..], prefix, from + 1)
  }

  /** The list the export collects its leaves in. */
  class Pairs {
    var list: seq<Numbered>

    constructor ()
      ensures list == []
    {
      list := [];
    }
  }

  /** `leaves` as it runs: it pushes onto the list it is given, and stops where it throws. */
  method Leaves(node: Node, prefix: string, out: Pairs) returns (threw: bool)
    modifies out
    ensures threw <==> Exported(node, prefix).None?
    ensures !threw ==> out.list == old(out.list) + Exported(node, prefix).value
    decreases node, 0
  {
    if node.Sentence? {
      out.list := out.list + [(prefix, node)];
      return false;
    }
    var kids, keys := Children(node.s), Children(node.k);
    if kids != [] && keys != [] {
      return true;
    }
    if node.s.Absent? {
      PushKeys(keys, prefix, 0, out);
      return false;
    }
    threw := KidsLeaves(node.s.nodes, prefix, out);
    if !threw {
      ghost var first, rest := ExportedKids(kids, prefix, 0).value, Keys(keys, prefix, |kids|);
      PushKeys(keys, prefix, |kids|, out);
      assert old(out.list) + first + rest == old(out.list) + (first + rest);
    }
  }

  method KidsLeaves(kids: seq<Node>, prefix: string, out: Pairs) returns (threw: bool)
    modifies out
    ensures threw <==> ExportedKids(kids, prefix, 0).None?
    ensures !threw ==> out.list == old(out.list) + ExportedKids(kids, prefix, 0).value
    decreases kids, 1
  {
    ghost var all := ExportedKids(kids, prefix, 0);
    var i := 0;
    while i < |kids|
      invariant 0 <= i <= |kids|
      invariant all.Some? <==> ExportedKids(kids[i..], prefix, i).Some?
      invariant all.Some? ==> out.list + ExportedKids(kids[i..], prefix, i).value == old(out.list) + all.value
    {
      assert kids[i..][0] == kids[i] && kids[i..][1..] == kids[i + 1..];
      threw := Leaves(kids[i], ChildId(prefix, i), out);
      if threw {
        return true;
      }
      i := i + 1;
    }
    assert kids[i..] == [];
    threw := false;
  }

  method PushKeys(keys: seq<Node>, prefix: string, from: nat, out: Pairs)
    modifies out
    ensures out.list == old(out.list) + Keys(keys, prefix, from)
  {
    var j := 0;
    while j < |keys|
      invariant 0 <= j <= |keys|
      invariant out.list + Keys(keys[j..], prefix, from + j) == old(out.list) + Keys(keys, prefix, from)
    {
      assert keys[j..][0] == keys[j] && keys[j..][1..] == keys[j + 1..];
      out.list := out.list + [(ChildId(prefix, from + j), keys[j])];
      j := j + 1;
    }
    assert keys[j..] == [];
  }

  // ------------------------------------------------------------ render.js

  /** `norm`: the children are `k` if it is there at all, and otherwise `s`. */
  datatype Norm = Norm(name: string, children: seq<Norm>)

  function Normal(node: Node): Norm
    decreases node, 0
  {
    match node
    case Sentence(text) => Norm(text, [])
    case Group(name, s, k) =>
      match (k, s)
      case (Present(keys), _) => Norm(name, NormalAll(keys))
      case (Absent, Present(kids)) => Norm(name, NormalAll(kids))
      case (Absent, Absent) => Norm(name, [])
  }

  function NormalAll(nodes: seq<Node>): seq<Norm>
    decreases nodes, 1
  {
    if nodes == [] then [] else [Normal(nodes[0])] + NormalAll(nodes[1..])
  }

  /** The render walk: a node with no children is a leaf, and its name is its sentence. */
  function Rendered(n: Norm, id: string): seq<Numbered>
    decreases n, 0
  {
    if n.children == [] then [(id, Sentence(n.name))] else RenderedAll(n.children, id, 0)
  }

  function RenderedAll(nodes: seq<Norm>, prefix: string, from: nat): seq<Numbered>
    decreases nodes, 1
  {
    if nodes == [] then []
    else Rendered(nodes[0], ChildId(prefix, from)) + RenderedAll(nodes[1..], prefix, from + 1)
  }

  // ------------------------------------------------------------ ids name places

  /** An id at or below a place in the tree, by its text. */
  predicate Under(place: string, id: string) {
    id == place || (|place| < |id| && id[..|place|] == place && id[|place|] == '.')
  }

  lemma UnderChild(prefix: string, i: nat, id: string)
    requires Under(ChildId(prefix, i), id)
    ensures Under(prefix, id) && id != prefix
  {
    var c := ChildId(prefix, i);
    assert c == prefix + ["."[0]] + Decimal(i + 1);
    assert id[..|c|] == c && c[..|prefix|] == prefix && c[|prefix|] == '.';
    assert id[..|prefix|] == id[..|c|][..|prefix|];
  }

  /** The number a child's id carries after its parent's, and what follows it. */
  lemma UnderOneChild(prefix: string, i: nat, j: nat, id: string)
    requires Under(ChildId(prefix, i), id) && Under(ChildId(prefix, j), id)
    ensures i == j
  {
    var a := ChildNumber(prefix, i, id);
    var b := ChildNumber(prefix, j, id);
    DecimalThenMark(i + 1, j + 1, '.', a, b);
  }

  lemma ChildNumber(prefix: string, i: nat, id: string) returns (rest: string)
    requires Under(ChildId(prefix, i), id)
    ensures |prefix| < |id| && (id + ".")[|prefix| + 1..] == Decimal(i + 1) + ['.'] + rest
  {
    var c := ChildId(prefix, i);
    assert c[|prefix| + 1..] == Decimal(i + 1);
    if id == c {
      rest := "";
      assert (id + ".")[|prefix| + 1..] == Decimal(i + 1) + ['.'];
    } else {
      rest := id[|c| + 1..] + ".";
      assert id + "." == c + ['.'] + rest;
      assert (c + ['.'] + rest)[|prefix| + 1..] == c[|prefix| + 1..] + ['.'] + rest;
    }
  }

  ghost predicate AllUnder(place: string, out: seq<Numbered>) {
    forall x | x in out :: Under(place, x.0)
  }

  /** Ids below the children of a place numbered from some number on. */
  ghost predicate UnderFrom(prefix: string, from: nat, out: seq<Numbered>) {
    forall x | x in out :: exists i: nat | i >= from :: Under(ChildId(prefix, i), x.0)
  }

  lemma {:induction false} RenderedUnder(n: Norm, id: string)
    ensures AllUnder(id, Rendered(n, id)) && Rendered(n, id) != []
    decreases n, 0
  {
    if n.children != [] {
      RenderedAllUnder(n.children, id, 0);
      forall x | x in Rendered(n, id) ensures Under(id, x.0) {
        var i: nat :| Under(ChildId(id, i), x.0);
        UnderChild(id, i, x.0);
      }
    }
  }

  lemma {:induction false} RenderedAllUnder(nodes: seq<Norm>, prefix: string, from: nat)
    ensures UnderFrom(prefix, from, RenderedAll(nodes, prefix, from))
    ensures nodes != [] ==> RenderedAll(nodes, prefix, from) != []
    decreases nodes, 1
  {
    if nodes != [] {
      RenderedUnder(nodes[0], ChildId(prefix, from));
      RenderedAllUnder(nodes[1..], prefix, from + 1);
    }
  }

  lemma {:induction false} ExportedUnder(node: Node, prefix: string)
    requires Exported(node, prefix).Some?
    ensures AllUnder(prefix, Exported(node, prefix).value)
    decreases node, 0
  {
    if node.Group? {
      var out := Exported(node, prefix).value;
      KeysUnder(Children(node.k), prefix, 0);
      if node.s.Present? {
        ExportedKidsUnder(node.s.nodes, prefix, 0);
        KeysUnder(Children(node.k), prefix, |node.s.nodes|);
      }
      forall x | x in out ensures Under(prefix, x.0) {
        var i: nat :| Under(ChildId(prefix, i), x.0);
        UnderChild(prefix, i, x.0);
      }
    }
  }

  lemma {:induction false} ExportedKidsUnder(kids: seq<Node>, prefix: string, from: nat)
    requires ExportedKids(kids, prefix, from).Some?
    ensures UnderFrom(prefix, from, ExportedKids(kids, prefix, from).value)
    decreases kids, 1
  {
    if kids != [] {
      ExportedUnder(kids[0], ChildId(prefix, from));
      ExportedKidsUnder(kids[1..], prefix, from + 1);
    }
  }

  lemma {:induction false} KeysUnder(keys: seq<Node>, prefix: string, from: nat)
    ensures UnderFrom(prefix, from, Keys(keys, prefix, from))
  {
    if keys != [] {
      assert Under(ChildId(prefix, from), ChildId(prefix, from));
      KeysUnder(keys[1..], prefix, from + 1);
    }
  }

  // ------------------------------------------------------------ when the two agree

  /**
   What a breakdown has to be for the two programs to number it alike: a group has `k` or it has
   `s`, not neither and not both with anything in them; a group with `k` has only sentences there;
   and no group is empty.
   */
  predicate WellNumbered(node: Node)
    decreases node, 0
  {
    match node
    case Sentence(_) => true
    case Group(_, s, k) =>
      match k
      case Present(keys) => Children(s) == [] && keys != [] && forall x | x in keys :: x.Sentence?
      case Absent =>
        match s
        case Present(kids) => kids != [] && AllWellNumbered(kids)
        case Absent => false
  }

  predicate AllWellNumbered(nodes: seq<Node>)
    decreases nodes, 1
  {
    nodes == [] || (WellNumbered(nodes[0]) && AllWellNumbered(nodes[1..]))
  }

  /** Lists that start with ids from different children part at the same point. */
  lemma PartAlike(prefix: string, from: nat, a: seq<Numbered>, b: seq<Numbered>, x: seq<Numbered>, y: seq<Numbered>)
    requires AllUnder(ChildId(prefix, from), a) && AllUnder(ChildId(prefix, from), b)
    requires UnderFrom(prefix, from + 1, x) && UnderFrom(prefix, from + 1, y)
    requires a + x == b + y
    ensures a == b && x == y
  {
    if |a| < |b| {
      PartsHere(prefix, from, b, x, |a|, a + x, a, b, y);
    } else if |b| < |a| {
      PartsHere(prefix, from, a, y, |b|, b + y, b, a, x);
    }
    assert a == (a + x)[..|a|] && b == (b + y)[..|b|];
    assert x == (a + x)[|a|..] && y == (b + y)[|b|..];
  }

  lemma PartsHere(prefix: string, from: nat, longer: seq<Numbered>, tail: seq<Numbered>, i: nat,
                  whole: seq<Numbered>, shorter: seq<Numbered>, other: seq<Numbered>, rest: seq<Numbered>)
    requires longer == other && i == |shorter| < |longer|
    requires AllUnder(ChildId(prefix, from), longer) && UnderFrom(prefix, from + 1, tail)
    requires whole == shorter + tail
    ensures whole != other + rest
  {
    if |tail| > 0 {
      var id := tail[0].0;
      assert tail[0] in tail;
      var j: nat :| j >= from + 1 && Under(ChildId(prefix, j), id);
      if whole == other + rest {
        assert longer[i] == (other + rest)[i] == whole[i] == tail[0];
        assert longer[i] in longer;
        UnderOneChild(prefix, from, j, id);
      }
    } else {
      assert |whole| < |other + rest|;
    }
  }

  /** `k` alone: pushed as they are by one program and walked by the other. */
  lemma {:induction false} KeysAgree(keys: seq<Node>, prefix: string, from: nat)
    ensures Keys(keys, prefix, from) == RenderedAll(NormalAll(keys), prefix, from)
       <==> forall x | x in keys :: x.Sentence?
  {
    if keys != [] {
      var id := ChildId(prefix, from);
      var here, there := [(id, keys[0])], Rendered(Normal(keys[0]), id);
      var more, rest := Keys(keys[1..], prefix, from + 1), RenderedAll(NormalAll(keys[1..]), prefix, from + 1);
      KeysAgree(keys[1..], prefix, from + 1);
      KeysUnder(keys[1..], prefix, from + 1);
      RenderedUnder(Normal(keys[0]), id);
      RenderedAllUnder(NormalAll(keys[1..]), prefix, from + 1);
      RenderedSentences(Normal(keys[0]), id);
      assert here[0] in here && here[0].1 == keys[0];
      assert keys[0].Sentence? ==> here == there;
      assert here == there ==> keys[0].Sentence?;
      if here + more == there + rest {
        PartAlike(prefix, from, here, there, more, rest);
      }
      assert NormalAll(keys) == [Normal(keys[0])] + NormalAll(keys[1..]);
      assert RenderedAll(NormalAll(keys), prefix, from) == there + rest;
    }
  }

  lemma {:induction false} RenderedSentences(n: Norm, id: string)
    ensures forall x | x in Rendered(n, id) :: x.1.Sentence?
    decreases n, 0
  {
    if n.children != [] {
      RenderedAllSentences(n.children, id, 0);
    }
  }

  lemma {:induction false} RenderedAllSentences(nodes: seq<Norm>, prefix: string, from: nat)
    ensures forall x | x in RenderedAll(nodes, prefix, from) :: x.1.Sentence?
    decreases nodes, 1
  {
    if nodes != [] {
      RenderedSentences(nodes[0], ChildId(prefix, from));
      RenderedAllSentences(nodes[1..], prefix, from + 1);
    }
  }

  lemma {:induction false} KidsAgree(kids: seq<Node>, prefix: string, from: nat)
    ensures ExportedKids(kids, prefix, from) == Some(RenderedAll(NormalAll(kids), prefix, from))
       <==> AllWellNumbered(kids)
    decreases kids, 1
  {
    if kids != [] {
      var id := ChildId(prefix, from);
      NumberedAlike(kids[0], id);
      KidsAgree(kids[1..], prefix, from + 1);
      var here, more := Exported(kids[0], id), ExportedKids(kids[1..], prefix, from + 1);
      var there, rest := Rendered(Normal(kids[0]), id), RenderedAll(NormalAll(kids[1..]), prefix, from + 1);
      assert NormalAll(kids) == [Normal(kids[0])] + NormalAll(kids[1..]);
      assert RenderedAll(NormalAll(kids), prefix, from) == there + rest;
      if here.Some? && more.Some? && here.value + more.value == there + rest {
        ExportedUnder(kids[0], id);
        ExportedKidsUnder(kids[1..], prefix, from + 1);
        RenderedUnder(Normal(kids[0]), id);
        RenderedAllUnder(NormalAll(kids[1..]), prefix, from + 1);
        PartAlike(prefix, from, here.value, there, more.value, rest);
      }
    }
  }

  /** A list of leaves below a place's children never starts with the place itself. */
  lemma NotTheGroupItself(prefix: string, from: nat, out: seq<Numbered>, x: Numbered)
    requires UnderFrom(prefix, from, out)
    ensures out != [(prefix, x.1)]
  {
    if out != [] {
      assert out[0] in out;
      var i: nat :| Under(ChildId(prefix, i), out[0].0);
      UnderChild(prefix, i, out[0].0);
    }
  }

  /**
   The two programs give one list of ids and sentences exactly where the breakdown is well
   numbered; anywhere else they part, or one of them throws.
   */
  lemma {:induction false} NumberedAlike(node: Node, prefix: string)
    ensures Exported(node, prefix) == Some(Rendered(Normal(node), prefix)) <==> WellNumbered(node)
    decreases node, 0
  {
    if node.Group? {
      var kids, keys := Children(node.s), Children(node.k);
      if node.s.Present? {
        KidsAgree(node.s.nodes, prefix, 0);
      }
      KeysAgree(keys, prefix, 0);
      GroupLists(node, prefix);
      var leaf := (prefix, Sentence(node.name));
      if ExportedKids(kids, prefix, 0).Some? {
        ExportedKidsUnder(kids, prefix, 0);
        NotTheGroupItself(prefix, 0, ExportedKids(kids, prefix, 0).value, leaf);
      }
    }
  }

  /** What each program makes of a group, by which of its two fields hold anything. */
  lemma GroupLists(node: Node, prefix: string)
    requires node.Group?
    ensures var kids := Children(node.s);
            var keys := Children(node.k);
            && (kids != [] && keys != [] ==> Exported(node, prefix).None?)
            && (keys == [] ==> Exported(node, prefix) == ExportedKids(kids, prefix, 0))
            && (kids == [] && keys != [] ==> Exported(node, prefix) == Some(Keys(keys, prefix, 0)))
            && (kids == [] && keys == [] ==> Exported(node, prefix) == Some([]))
            && (node.k.Present? && keys != [] ==> Rendered(Normal(node), prefix) == RenderedAll(NormalAll(keys), prefix, 0))
            && (node.k.Absent? && kids != [] ==> Rendered(Normal(node), prefix) == RenderedAll(NormalAll(kids), prefix, 0))
            && ((node.k.Present? && keys == []) || (node.k.Absent? && kids == []) ==>
                  Rendered(Normal(node), prefix) == [(prefix, Sentence(node.name))])
  {
    var kids, keys := Children(node.s), Children(node.k);
    assert kids != [] ==> NormalAll(kids) != [];
    assert keys != [] ==> NormalAll(keys) != [];
    if kids == [] && node.s.Present? {
      assert ExportedKids(kids, prefix, 0) == Some([]);
      assert [] + Keys(keys, prefix, 0) == Keys(keys, prefix, 0);
    }
    if keys == [] && ExportedKids(kids, prefix, 0).Some? {
      assert ExportedKids(kids, prefix, 0).value + Keys([], prefix, |kids|) == ExportedKids(kids, prefix, 0).value;
    }
  }

  /**
   Two breakdowns the export lets through and numbers in its own way: a node with an empty `k` beside
   its `s` is one leaf to the other program, and an entry of `k` with children of its own is several.
   */
  lemma SilentlyDivergent(name: string, text: string, prefix: string)
    ensures var node := Group(name, Present([Sentence(text)]), Present([]));
            && Exported(node, prefix) == Some([(ChildId(prefix, 0), Sentence(text))])
            && Rendered(Normal(node), prefix) == [(prefix, Sentence(name))]
    ensures var inner := Group(name, Absent, Present([Sentence(text)]));
            var node := Group(name, Absent, Present([inner]));
            && Exported(node, prefix) == Some([(ChildId(prefix, 0), inner)])
            && Rendered(Normal(node), prefix) == [(ChildId(ChildId(prefix, 0), 0), Sentence(text))]
  {
    var s := Sentence(text);
    var none: seq<Numbered> := [];
    assert ExportedKids([s], prefix, 0) == Some([(ChildId(prefix, 0), s)] + none);
    assert [(ChildId(prefix, 0), s)] + none == [(ChildId(prefix, 0), s)];
    var inner := Group(name, Absent, Present([s]));
    assert Keys([inner], prefix, 0) == [(ChildId(prefix, 0), inner)] + none == [(ChildId(prefix, 0), inner)];
    GroupLists(Group(name, Present([s]), Present([])), prefix);
    GroupLists(Group(name, Absent, Present([inner])), prefix);
    assert NormalAll([s]) == [Normal(s)] && NormalAll([inner]) == [Normal(inner)];
    assert RenderedAll([Normal(s)], ChildId(prefix, 0), 0) == Rendered(Normal(s), ChildId(ChildId(prefix, 0), 0)) + [];
    assert RenderedAll([Normal(inner)], prefix, 0) == Rendered(Normal(inner), ChildId(prefix, 0)) + [];
  }

  // ------------------------------------------------------------ a whole module

  /** A task: its top-level fields, of which render.js reads `s` alone. */
  datatype Task = Task(name: string, s: Field, k: Field)

  datatype Module = Module(id: string, tasks: seq<Task>)

  function ExportedTask(t: Task, prefix: string): Option<seq<Numbered>> {
    Exported(Group(t.name, t.s, t.k), prefix)
  }

  function RenderedTask(t: Task, prefix: string): seq<Numbered> {
    Rendered(Normal(Group(t.name, Absent, t.s)), prefix)
  }

  predicate WellNumberedTask(t: Task) {
    Children(t.k) == [] && Children(t.s) != [] && AllWellNumbered(Children(t.s))
  }

  /** A task is numbered alike exactly when it has `s` children, no `k` ones, and all of them are. */
  lemma TaskNumberedAlike(t: Task, prefix: string)
    ensures ExportedTask(t, prefix) == Some(RenderedTask(t, prefix)) <==> WellNumberedTask(t)
  {
    var kids, keys := Children(t.s), Children(t.k);
    GroupLists(Group(t.name, t.s, t.k), prefix);
    GroupLists(Group(t.name, Absent, t.s), prefix);
    KidsAgree(kids, prefix, 0);
    KeysUnder(keys, prefix, 0);
    NotTheGroupItself(prefix, 0, Keys(keys, prefix, 0), (prefix, Sentence(t.name)));
    if kids == [] && keys == [] && t.s.Absent? {
      assert RenderedTask(t, prefix) == [(prefix, Sentence(t.name))];
    }
  }

  function ExportedTasks(tasks: seq<Task>, id: string, from: nat): Option<seq<Numbered>> {
    if tasks == [] then Some([])
    else
      match (ExportedTask(tasks[0], ChildId(id, from)), ExportedTasks(tasks[1..], id, from + 1))
      case (Some(first), Some(rest)) => Some(first + rest)
      case _ => None
  }

  function RenderedTasks(tasks: seq<Task>, id: string, from: nat): seq<Numbered> {
    if tasks == [] then [] else RenderedTask(tasks[0], ChildId(id, from)) + RenderedTasks(tasks[1..], id, from + 1)
  }

  lemma {:induction false} RenderedTasksUnder(tasks: seq<Task>, id: string, from: nat)
    ensures UnderFrom(id, from, RenderedTasks(tasks, id, from))
  {
    if tasks != [] {
      RenderedUnder(Normal(Group(tasks[0].name, Absent, tasks[0].s)), ChildId(id, from));
      RenderedTasksUnder(tasks[1..], id, from + 1);
    }
  }

  lemma {:induction false} ExportedTasksUnder(tasks: seq<Task>, id: string, from: nat)
    requires ExportedTasks(tasks, id, from).Some?
    ensures UnderFrom(id, from, ExportedTasks(tasks, id, from).value)
  {
    if tasks != [] {
      ExportedUnder(Group(tasks[0].name, tasks[0].s, tasks[0].k), ChildId(id, from));
      ExportedTasksUnder(tasks[1..], id, from + 1);
    }
  }

  /** A whole module is numbered alike by the two programs exactly when each of its tasks is. */
  lemma {:induction false} ModuleNumberedAlike(tasks: seq<Task>, id: string, from: nat)
    ensures ExportedTasks(tasks, id, from) == Some(RenderedTasks(tasks, id, from))
       <==> forall t | t in tasks :: WellNumberedTask(t)
  {
    if tasks != [] {
      var here := ChildId(id, from);
      TaskNumberedAlike(tasks[0], here);
      ModuleNumberedAlike(tasks[1..], id, from + 1);
      var a, x := ExportedTask(tasks[0], here), ExportedTasks(tasks[1..], id, from + 1);
      var b, y := RenderedTask(tasks[0], here), RenderedTasks(tasks[1..], id, from + 1);
      if a.Some? && x.Some? && a.value + x.value == b + y {
        ExportedUnder(Group(tasks[0].name, tasks[0].s, tasks[0].k), here);
        ExportedTasksUnder(tasks[1..], id, from + 1);
        RenderedUnder(Normal(Group(tasks[0].name, Absent, tasks[0].s)), here);
        RenderedTasksUnder(tasks[1..], id, from + 1);
        PartAlike(id, from, a.value, b, x.value, y);
      }
    }
  }

  // ------------------------------------------------------------ the ids are all different

  ghost predicate DistinctIds(out: seq<Numbered>) {
    forall i, j | 0 <= i < j < |out| :: out[i].0 != out[j].0
  }

  lemma DistinctTogether(prefix: string, from: nat, a: seq<Numbered>, x: seq<Numbered>)
    requires AllUnder(ChildId(prefix, from), a) && UnderFrom(prefix, from + 1, x)
    requires DistinctIds(a) && DistinctIds(x)
    ensures DistinctIds(a + x)
  {
    forall i, j | 0 <= i < |a| && 0 <= j < |x| ensures a[i].0 != x[j].0 {
      assert a[i] in a && x[j] in x;
      var n: nat :| n >= from + 1 && Under(ChildId(prefix, n), x[j].0);
      if a[i].0 == x[j].0 {
        UnderOneChild(prefix, from, n, x[j].0);
      }
    }
  }

  lemma {:induction false} RenderedDistinct(n: Norm, id: string)
    ensures DistinctIds(Rendered(n, id))
    decreases n, 0
  {
    if n.children != [] {
      RenderedAllDistinct(n.children, id, 0);
    }
  }

  lemma {:induction false} RenderedAllDistinct(nodes: seq<Norm>, prefix: string, from: nat)
    ensures DistinctIds(RenderedAll(nodes, prefix, from))
    decreases nodes, 1
  {
    if nodes != [] {
      RenderedDistinct(nodes[0], ChildId(prefix, from));
      RenderedAllDistinct(nodes[1..], prefix, from + 1);
      RenderedUnder(nodes[0], ChildId(prefix, from));
      RenderedAllUnder(nodes[1..], prefix, from + 1);
      DistinctTogether(prefix, from, Rendered(nodes[0], ChildId(prefix, from)),
                       RenderedAll(nodes[1..], prefix, from + 1));
    }
  }

  /** No two leaves of a module share an id, whatever the breakdown looks like. */
  lemma {:induction false} LeafIdsAreDistinct(tasks: seq<Task>, id: string, from: nat)
    ensures DistinctIds(RenderedTasks(tasks, id, from))
  {
    if tasks != [] {
      var first := Normal(Group(tasks[0].name, Absent, tasks[0].s));
      RenderedDistinct(first, ChildId(id, from));
      RenderedUnder(first, ChildId(id, from));
      LeafIdsAreDistinct(tasks[1..], id, from + 1);
      RenderedTasksUnder(tasks[1..], id, from + 1);
      DistinctTogether(id, from, RenderedTask(tasks[0], ChildId(id, from)),
                       RenderedTasks(tasks[1..], id, from + 1));
    }
  }
}
