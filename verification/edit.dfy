/**
 * Checked operations on trees: replacing a container's children only when every
 * new child may appear under it, and validating an arbitrary tree by listing
 * the position of every child its parent may not hold.
 */
module Edit {
  import opened Wrappers
  import opened Xast
  import opened Containment

  /** Why a checked edit was refused. */
  datatype Error =
    | NotAParent(kind: Kind)
    | InvalidChildKind(index: nat, parent: Kind, child: Kind)

  /** The first position in `cs` whose node may not appear under `parent`, if any. */
  function FirstDisallowed(parent: Kind, cs: seq<Node>): (r: Option<nat>)
    ensures r.None? <==> ChildrenFit(parent, cs)
    ensures r.Some? ==> r.value < |cs| && !AllowedUnder(parent, KindOf(cs[r.value]))
    ensures r.Some? ==> forall j | 0 <= j < r.value :: AllowedUnder(parent, KindOf(cs[j]))
  {
    if cs == [] then None
    else if !AllowedUnder(parent, KindOf(cs[0])) then Some(0)
    else match FirstDisallowed(parent, cs[1..])
      case None => None
      case Some(i) => Some(i + 1)
  }

  /** Replaces the children of a container. The replacement is all or nothing: it
      succeeds exactly when `n` is a container and every new child is allowed under
      it, and then only the children change, in the order given; otherwise the
      error names the first offending child and no node is produced. */
  function ReplaceChildren(n: Node, cs: seq<Node>): (r: Result<Node, Error>)
    ensures r.Ok? <==> IsParent(KindOf(n)) && ChildrenFit(KindOf(n), cs)
    ensures r.Ok? ==> KindOf(r.value) == KindOf(n) && Children(r.value) == cs
    ensures r.Ok? && n.Element? ==> r.value.name == n.name && r.value.attributes == n.attributes
    ensures r.Err? && !IsParent(KindOf(n)) ==> r.error == NotAParent(KindOf(n))
    ensures r.Err? && IsParent(KindOf(n)) ==>
      && r.error.InvalidChildKind? && r.error.parent == KindOf(n)
      && r.error.index < |cs|
      && r.error.child == KindOf(cs[r.error.index])
      && !AllowedUnder(KindOf(n), r.error.child)
      && forall j | 0 <= j < r.error.index :: AllowedUnder(KindOf(n), KindOf(cs[j]))
  {
    if !IsParent(KindOf(n)) then Err(NotAParent(KindOf(n)))
    else match FirstDisallowed(KindOf(n), cs)
      case Some(i) => Err(InvalidChildKind(i, KindOf(n), KindOf(cs[i])))
      case None => Ok(n.(children := cs))
  }

  /** Replacing a container's children with well-formed trees yields a well-formed
      tree, whatever the container held before: the checked edit cannot produce an
      ill-formed tree. */
  lemma ReplacePreservesWellFormed(n: Node, cs: seq<Node>)
    requires forall i | 0 <= i < |cs| :: WellFormed(cs[i])
    requires ReplaceChildren(n, cs).Ok?
    ensures WellFormed(ReplaceChildren(n, cs).value)
  {
  }

  /** Within a well-formed tree, replacing the children of any container by those
      of another well-formed node of the same kind always succeeds. */
  lemma ReplaceWithinKindSucceeds(n: Node, donor: Node)
    requires WellFormed(donor) && IsParent(KindOf(n)) && KindOf(donor) == KindOf(n)
    ensures ReplaceChildren(n, Children(donor)).Ok?
    ensures WellFormed(ReplaceChildren(n, Children(donor)).value)
  {
    ReplacePreservesWellFormed(n, Children(donor));
  }

  /** Every path in `ps` with `i` put in front. */
  function Prefixed(i: nat, ps: seq<Path>): (r: seq<Path>)
    ensures forall q: Path :: q in r <==> |q| > 0 && q[0] == i && q[1..] in ps
  {
    var r := seq(|ps|, j requires 0 <= j < |ps| => [i] + ps[j]);
    assert forall q: Path :: q in r <==> |q| > 0 && q[0] == i && q[1..] in ps by {
      forall q: Path
        ensures q in r <==> |q| > 0 && q[0] == i && q[1..] in ps
      {
        if q in r {
          var j :| 0 <= j < |r| && r[j] == q;
          assert q[1..] == ps[j];
        }
        if |q| > 0 && q[0] == i && q[1..] in ps {
          var j :| 0 <= j < |ps| && ps[j] == q[1..];
          assert r[j] == q;
        }
      }
    }
    r
  }

  /** The paths, relative to `n`, of every node placed under a parent whose kind does
      not allow it; a node whose own placement is wrong is still searched below. */
  function Violations(n: Node): seq<Path>
    decreases n, 1
  {
    match n
    case Root(cs) => ChildViolations(RootKind, cs, 0)
    case Element(_, _, cs) => ChildViolations(ElementKind, cs, 0)
    case _ => []
  }

  /** The violations among `cs[from..]` and below them, for a parent of kind `parent`. */
  function ChildViolations(parent: Kind, cs: seq<Node>, from: nat): seq<Path>
    requires from <= |cs|
    decreases cs, 0, |cs| - from
  {
    if from == |cs| then []
    else
      (if AllowedUnder(parent, KindOf(cs[from])) then [] else [[from]])
      + Prefixed(from, Violations(cs[from]))
      + ChildViolations(parent, cs, from + 1)
  }

  /** The node at `p` sits under a parent whose kind may not hold it: `p` is the
      parent's path followed by the child's index. */
  ghost predicate Misplaced(n: Node, p: Path) {
    && |p| > 0
    && At(n, p[..|p| - 1]).Some?
    && var parent := At(n, p[..|p| - 1]).value;
    && p[|p| - 1] < |Children(parent)|
    && !AllowedUnder(KindOf(parent), KindOf(Children(parent)[p[|p| - 1]]))
  }

  /** Every reported path leads to a misplaced node. */
  lemma {:induction false} ViolationsSound(n: Node, p: Path)
    requires p in Violations(n)
    ensures Misplaced(n, p)
    decreases n, 1
  {
    ChildViolationsSound(n, 0, p);
  }

  /** Every path reported for the children of `n` from `from` on leads to a misplaced node. */
  lemma {:induction false} ChildViolationsSound(n: Node, from: nat, p: Path)
    requires IsParent(KindOf(n)) && from <= |Children(n)|
    requires p in ChildViolations(KindOf(n), Children(n), from)
    ensures Misplaced(n, p)
    decreases n, 0, |Children(n)| - from
  {
    var cs := Children(n);
    var k := KindOf(n);
    var own := if AllowedUnder(k, KindOf(cs[from])) then [] else [[from]];
    var below := Prefixed(from, Violations(cs[from]));
    var later := ChildViolations(k, cs, from + 1);
    assert ChildViolations(k, cs, from) == own + below + later;
    if p in own {
      assert p == [from] && p[..0] == [];
    } else if p in below {
      var rest := p[1..];
      assert p == [from] + rest;
      assert cs[from] < n;
      ViolationsSound(cs[from], rest);
      MisplacedInChild(n, from, rest);
    } else {
      ChildViolationsSound(n, from + 1, p);
    }
  }

  /** A node misplaced below child `i` is misplaced below `n`, one step further down. */
  lemma MisplacedInChild(n: Node, i: nat, rest: Path)
    requires i < |Children(n)| && Misplaced(Children(n)[i], rest)
    ensures Misplaced(n, [i] + rest)
  {
    var p := [i] + rest;
    var parentPath := rest[..|rest| - 1];
    assert p[..|p| - 1] == [i] + parentPath;
    AtCons(n, i, parentPath);
  }

  /** Every reported path list for the children of a `parent` from `from` on
      contains each misplaced direct child and every violation below each child. */
  lemma {:induction false} ChildViolationsContain(parent: Kind, cs: seq<Node>, from: nat, i: nat, rest: Path)
    requires from <= i < |cs|
    requires (rest == [] && !AllowedUnder(parent, KindOf(cs[i]))) || rest in Violations(cs[i])
    ensures [i] + rest in ChildViolations(parent, cs, from)
    decreases |cs| - from
  {
    var own := if AllowedUnder(parent, KindOf(cs[from])) then [] else [[from]];
    var below := Prefixed(from, Violations(cs[from]));
    var later := ChildViolations(parent, cs, from + 1);
    assert ChildViolations(parent, cs, from) == own + below + later;
    if i == from {
      if rest == [] && !AllowedUnder(parent, KindOf(cs[i])) {
        assert [i] + rest == [from];
        assert [i] + rest in own;
      } else {
        assert ([i] + rest)[1..] == rest;
        assert [i] + rest in below;
      }
    } else {
      ChildViolationsContain(parent, cs, from + 1, i, rest);
    }
  }

  /** Every misplaced node is reported. */
  lemma {:induction false} ViolationsComplete(n: Node, p: Path)
    requires Misplaced(n, p)
    ensures p in Violations(n)
    decreases |p|
  {
    var i := p[0];
    var rest := p[1..];
    assert p == [i] + rest;
    assert IsParent(KindOf(n));
    var cs := Children(n);
    if rest == [] {
      assert p[..|p| - 1] == [];
    } else {
      assert p[..|p| - 1] == [i] + rest[..|rest| - 1];
      AtCons(n, i, rest[..|rest| - 1]);
      assert rest[|rest| - 1] == p[|p| - 1];
      ViolationsComplete(cs[i], rest);
    }
    ChildViolationsContain(KindOf(n), cs, 0, i, rest);
  }

  /** A tree has no violations exactly when it is well-formed. */
  lemma ViolationsEmptyIffWellFormed(n: Node)
    ensures Violations(n) == [] <==> WellFormed(n)
  {
    WellFormedIffEverywhereValid(n);
    if Violations(n) != [] && WellFormed(n) {
      var p := Violations(n)[0];
      ViolationsSound(n, p);
      WellFormedAt(n, p[..|p| - 1]);
      assert false;
    }
    if Violations(n) == [] && !WellFormed(n) {
      var q: Path :| At(n, q).Some? && !LocallyValid(At(n, q).value);
      var m := At(n, q).value;
      var i :| 0 <= i < |Children(m)| && !AllowedUnder(KindOf(m), KindOf(Children(m)[i]));
      var p := q + [i];
      assert p[..|p| - 1] == q && p[|p| - 1] == i;
      ViolationsComplete(n, p);
      assert false;
    }
  }
}
