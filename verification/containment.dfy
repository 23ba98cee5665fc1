/**
 * Which kinds a container may hold, and well-formedness of whole trees:
 * every container's children, at every depth, are of kinds its own kind allows.
 */
module Containment {
  import opened Wrappers
  import opened Xast

  /** The kinds a `Parent` (and so a root) may hold. */
  const ParentContent: set<Kind> := {ElementKind, TextKind, CommentKind, DoctypeKind, InstructionKind, CdataKind}

  /** The kinds an element may hold: no doctype. */
  const ElementContent: set<Kind> := {ElementKind, TextKind, CommentKind, InstructionKind, CdataKind}

  /** The allowed-children set of each kind, as the interfaces declare them. */
  function AllowedChildren(k: Kind): set<Kind> {
    match k
    case RootKind => ParentContent
    case ElementKind => ElementContent
    case _ => {}
  }

  /** Whether a node of kind `child` may appear among the children of a node of kind `parent`. */
  function AllowedUnder(parent: Kind, child: Kind): (ok: bool)
    ensures ok <==> child in AllowedChildren(parent)
  {
    match parent
    case RootKind => child != RootKind
    case ElementKind => child != RootKind && child != DoctypeKind
    case _ => false
  }

  /** A root is never allowed as a child, and whatever an element may hold a root may hold too. */
  lemma AllowedUnderShape(parent: Kind, child: Kind)
    ensures !AllowedUnder(parent, RootKind)
    ensures AllowedUnder(parent, child) ==> IsParent(parent)
    ensures AllowedUnder(ElementKind, child) ==> AllowedUnder(RootKind, child)
    ensures AllowedUnder(RootKind, child) && !AllowedUnder(ElementKind, child) <==> child == DoctypeKind
  {
  }

  /** Every child in `cs` may appear under a node of kind `parent`. */
  predicate ChildrenFit(parent: Kind, cs: seq<Node>) {
    forall i | 0 <= i < |cs| :: AllowedUnder(parent, KindOf(cs[i]))
  }

  /** A node's own children are of kinds its kind allows. */
  predicate LocallyValid(n: Node) {
    ChildrenFit(KindOf(n), Children(n))
  }

  /** The whole tree below `n` obeys the containment rules. The top node may be of any kind. */
  predicate WellFormed(n: Node) {
    match n
    case Root(cs) => ChildrenFit(RootKind, cs) && forall i | 0 <= i < |cs| :: WellFormed(cs[i])
    case Element(_, _, cs) => ChildrenFit(ElementKind, cs) && forall i | 0 <= i < |cs| :: WellFormed(cs[i])
    case _ => true
  }

  /** A path of child indices from a node downwards. */
  type Path = seq<nat>

  /** The node reached from `n` by following `p`, if every index exists. */
  function At(n: Node, p: Path): Option<Node>
    decreases |p|
  {
    if p == [] then Some(n)
    else if p[0] < |Children(n)| then At(Children(n)[p[0]], p[1..])
    else None
  }

  /** Stepping into child `i` and then following `q` is following `[i] + q`. */
  lemma AtCons(n: Node, i: nat, q: Path)
    requires i < |Children(n)|
    ensures At(n, [i] + q) == At(Children(n)[i], q)
  {
    assert ([i] + q)[1..] == q;
  }

  /** Well-formedness is the local rule plus well-formedness of every child. */
  lemma WellFormedUnfold(n: Node)
    ensures WellFormed(n) <==> LocallyValid(n) && forall i | 0 <= i < |Children(n)| :: WellFormed(Children(n)[i])
  {
  }

  /** Well-formedness is hereditary: every node of a well-formed tree roots a
      well-formed tree, and its children obey its kind's allowed set. */
  lemma {:induction false} WellFormedAt(n: Node, p: Path)
    requires WellFormed(n)
    requires At(n, p).Some?
    ensures WellFormed(At(n, p).value)
    ensures LocallyValid(At(n, p).value)
    decreases |p|
  {
    WellFormedUnfold(n);
    if p != [] {
      WellFormedAt(Children(n)[p[0]], p[1..]);
    }
    WellFormedUnfold(At(n, p).value);
  }

  /** The local containment rule holds at every node reachable from `n`. */
  ghost predicate EverywhereValid(n: Node) {
    forall p: Path | At(n, p).Some? :: LocallyValid(At(n, p).value)
  }

  /** A tree is well-formed exactly when the local containment rule holds at every node in it. */
  lemma WellFormedIffEverywhereValid(n: Node)
    ensures WellFormed(n) <==> EverywhereValid(n)
  {
    if WellFormed(n) {
      forall p: Path | At(n, p).Some?
        ensures LocallyValid(At(n, p).value)
      {
        WellFormedAt(n, p);
      }
    } else if EverywhereValid(n) {
      EverywhereValidIsWellFormed(n);
    }
  }

  /** The converse half: local validity at every node gives well-formedness. */
  lemma {:induction false} EverywhereValidIsWellFormed(n: Node)
    requires EverywhereValid(n)
    ensures WellFormed(n)
    decreases n
  {
    assert At(n, []) == Some(n);
    var cs := Children(n);
    forall i | 0 <= i < |cs|
      ensures WellFormed(cs[i])
    {
      forall q: Path | At(cs[i], q).Some?
        ensures LocallyValid(At(cs[i], q).value)
      {
        AtCons(n, i, q);
        assert At(n, [i] + q).Some?;
      }
      assert EverywhereValid(cs[i]);
      assert cs[i] < n;
      EverywhereValidIsWellFormed(cs[i]);
    }
    WellFormedUnfold(n);
  }

  /** In a well-formed tree no node strictly below the top is a root. */
  lemma {:induction false} RootNeverBelow(n: Node, p: Path)
    requires WellFormed(n)
    requires |p| > 0 && At(n, p).Some?
    ensures KindOf(At(n, p).value) != RootKind
    decreases |p|
  {
    WellFormedUnfold(n);
    var c := Children(n)[p[0]];
    if |p| > 1 {
      RootNeverBelow(c, p[1..]);
    }
  }

  /** Below a well-formed element, at any depth, there is neither a doctype nor a root. */
  lemma {:induction false} NoDoctypeBelowElement(e: Node, p: Path)
    requires WellFormed(e) && e.Element?
    requires At(e, p).Some?
    ensures KindOf(At(e, p).value) !in {DoctypeKind, RootKind}
    decreases |p|
  {
    if p != [] {
      var c := e.children[p[0]];
      assert AllowedUnder(ElementKind, KindOf(c));
      if c.Element? {
        NoDoctypeBelowElement(c, p[1..]);
      }
    }
  }

  /** In a well-formed tree a doctype strictly below the top is a direct child of a root top. */
  lemma {:induction false} DoctypeOnlyUnderTopRoot(n: Node, p: Path)
    requires WellFormed(n)
    requires |p| > 0 && At(n, p).Some? && At(n, p).value.Doctype?
    ensures n.Root? && |p| == 1
  {
    if n.Element? {
      NoDoctypeBelowElement(n, p);
    } else {
      var c := Children(n)[p[0]];
      AtCons(n, p[0], p[1..]);
      assert [p[0]] + p[1..] == p;
      if |p| > 1 && c.Element? {
        NoDoctypeBelowElement(c, p[1..]);
      }
    }
  }
}
