/**
 * Whole documents versus fragments. A root represents a whole document when it
 * has exactly one element child; any other root is a fragment, which is still a
 * legitimate tree.
 */
module Document {
  import opened Xast
  import opened Containment

  /** The positions in `cs` that hold an element. */
  ghost function ElementPositions(cs: seq<Node>): set<nat> {
    set i: nat | i < |cs| && cs[i].Element?
  }

  /** Every position in `s` moved one place to the right. */
  ghost function Shifted(s: set<nat>): (r: set<nat>)
    ensures forall y: nat :: y in r <==> y > 0 && y - 1 in s
  {
    var r := set j | j in s :: j + 1;
    assert forall y: nat | y > 0 && y - 1 in s :: y in r by {
      forall y: nat | y > 0 && y - 1 in s
        ensures y in r
      {
        var j: nat := y - 1;
        assert j in s && y == j + 1;
      }
    }
    r
  }

  /** Moving every position one place keeps the number of positions. */
  lemma {:induction false} ShiftedSize(s: set<nat>)
    ensures |Shifted(s)| == |s|
    decreases |s|
  {
    if s == {} {
      assert Shifted(s) == {};
    } else {
      var x :| x in s;
      ShiftedSize(s - {x});
      assert Shifted(s) == Shifted(s - {x}) + {x + 1};
    }
  }

  /** The number of element nodes among `cs`. */
  function ElementCount(cs: seq<Node>): (c: nat)
    ensures c == |ElementPositions(cs)|
    ensures c <= |cs|
    ensures c == 0 <==> forall i | 0 <= i < |cs| :: !cs[i].Element?
  {
    if cs == [] then
      assert ElementPositions(cs) == {};
      0
    else
      var head: set<nat> := if cs[0].Element? then {0} else {};
      assert ElementPositions(cs) == head + Shifted(ElementPositions(cs[1..])) by {
        forall i: nat
          ensures i in ElementPositions(cs) <==> i in head + Shifted(ElementPositions(cs[1..]))
        {
          if i > 0 && i < |cs| {
            assert cs[i] == cs[1..][i - 1];
          }
        }
      }
      ShiftedSize(ElementPositions(cs[1..]));
      (if cs[0].Element? then 1 else 0) + ElementCount(cs[1..])
  }

  /** Element counts add up over concatenation, so non-element siblings never change the count. */
  lemma {:induction false} ElementCountAppend(a: seq<Node>, b: seq<Node>)
    ensures ElementCount(a + b) == ElementCount(a) + ElementCount(b)
    decreases |a|
  {
    if a == [] {
      assert a + b == b;
    } else {
      assert (a + b)[1..] == a[1..] + b;
      ElementCountAppend(a[1..], b);
    }
  }

  /** `cs` holds exactly one element, at index `k`. */
  predicate OnlyElementAt(cs: seq<Node>, k: int) {
    0 <= k < |cs| && cs[k].Element? && forall j | 0 <= j < |cs| && cs[j].Element? :: j == k
  }

  /** Exactly one element is counted precisely when a single index holds the only element. */
  lemma {:induction false} ElementCountOne(cs: seq<Node>)
    ensures ElementCount(cs) == 1 <==> exists k :: OnlyElementAt(cs, k)
    decreases |cs|
  {
    if cs != [] {
      var rest := cs[1..];
      ElementCountOne(rest);
      if ElementCount(cs) == 1 {
        if cs[0].Element? {
          assert ElementCount(rest) == 0;
          assert OnlyElementAt(cs, 0);
        } else {
          var k :| OnlyElementAt(rest, k);
          assert OnlyElementAt(cs, k + 1) by {
            forall j | 0 <= j < |cs| && cs[j].Element?
              ensures j == k + 1
            {
              assert j > 0;
              assert rest[j - 1] == cs[j];
            }
          }
        }
      }
      if exists k :: OnlyElementAt(cs, k) {
        var k :| OnlyElementAt(cs, k);
        if k == 0 {
          forall i | 0 <= i < |rest|
            ensures !rest[i].Element?
          {
            assert cs[i + 1] == rest[i];
          }
        } else {
          assert !cs[0].Element?;
          assert OnlyElementAt(rest, k - 1) by {
            forall j | 0 <= j < |rest| && rest[j].Element?
              ensures j == k - 1
            {
              assert cs[j + 1] == rest[j];
            }
          }
        }
      }
    }
  }

  /** A root represents a whole document: it has exactly one element child. */
  predicate IsWholeDocument(n: Node) {
    n.Root? && ElementCount(n.children) == 1
  }

  /** A whole document is a root with a unique element child, whatever the number
      of text, comment, doctype, instruction or cdata siblings around it. */
  lemma WholeDocumentIff(n: Node)
    ensures IsWholeDocument(n) <==> n.Root? && exists k :: OnlyElementAt(n.children, k)
  {
    if n.Root? {
      ElementCountOne(n.children);
    }
  }

  /** A root with no element child, or with elements at two different positions,
      is a fragment rather than a whole document. */
  lemma FragmentCounts(cs: seq<Node>, i: int, j: int)
    ensures (forall k | 0 <= k < |cs| :: !cs[k].Element?) ==> !IsWholeDocument(Root(cs))
    ensures 0 <= i < j < |cs| && cs[i].Element? && cs[j].Element? ==> !IsWholeDocument(Root(cs))
  {
    WholeDocumentIff(Root(cs));
  }

  /** Inserting non-element siblings anywhere among a root's children leaves its
      whole-document status unchanged. */
  lemma {:induction false} NonElementSiblingsIrrelevant(before: seq<Node>, inserted: seq<Node>, after: seq<Node>)
    requires forall i | 0 <= i < |inserted| :: !inserted[i].Element?
    ensures IsWholeDocument(Root(before + inserted + after)) <==> IsWholeDocument(Root(before + after))
  {
    ElementCountAppend(before + inserted, after);
    ElementCountAppend(before, inserted);
    ElementCountAppend(before, after);
  }

  /** The position of the first element among `cs`. */
  function FirstElementIndex(cs: seq<Node>): (k: nat)
    requires ElementCount(cs) > 0
    ensures k < |cs| && cs[k].Element?
    ensures forall j | 0 <= j < k :: !cs[j].Element?
  {
    if cs[0].Element? then 0 else 1 + FirstElementIndex(cs[1..])
  }

  /** The unique element child of a whole document. */
  function DocumentElement(n: Node): (e: Node)
    requires IsWholeDocument(n)
    ensures e.Element?
    ensures exists k :: OnlyElementAt(n.children, k) && n.children[k] == e
  {
    var k := FirstElementIndex(n.children);
    WholeDocumentIff(n);
    assert OnlyElementAt(n.children, k);
    n.children[k]
  }

  /** Being a whole document is independent of well-formedness: a well-formed root
      may hold no element, and one with two elements is a well-formed fragment. */
  lemma FragmentsAreWellFormed(a: Node, b: Node)
    requires a.Element? && b.Element? && WellFormed(a) && WellFormed(b)
    ensures WellFormed(Root([])) && !IsWholeDocument(Root([]))
    ensures WellFormed(Root([a, b])) && !IsWholeDocument(Root([a, b]))
    ensures WellFormed(Root([a])) && IsWholeDocument(Root([a]))
  {
  }
}
