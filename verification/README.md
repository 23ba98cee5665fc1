# xast syntax-tree model in Dafny

This project models the xast syntax tree for XML as it is declared in
`types/xast/index.d.ts`. It covers the seven closed node kinds (root, element,
text, comment, doctype, instruction, cdata) and the fields each kind declares.
It also covers the rule fixing which kinds each container may hold, the advisory
"whole document" condition on roots, and the scalar typing of attribute values.
The declaration file has no executable code: its behaviour is the set of shapes
its interfaces allow. Here those shapes become an inductive datatype, predicates
over it, and lemmas about them.

Modules:

- `Wrappers` (`wrappers.dfy`): `Option` for optional properties and `Result` for refused edits.
- `Xast` (`xast.dfy`): the `Primitive`, `Attributes`, `Kind` and `Node` types.
  It also holds the `type` tags and the field accessors (`Children`, `Value`, `Name`, `AttributesOf`, `Attribute`).
- `Containment` (`containment.dfy`): the allowed-children sets of `Parent` and `Element`, and `AllowedUnder`.
  It also holds the recursive `WellFormed`, paths into a tree (`At`), and the properties that hold at every depth.
- `Document` (`document.dfy`): counting element children, `IsWholeDocument`, and the document element of a whole document.
- `Edit` (`edit.dfy`): a checked, all-or-nothing `ReplaceChildren`, and a validator `Violations`.
  `Violations` lists the path of every child that sits under a parent whose kind may not hold it.
  Neither operation exists in the declaration file. They exist to show that the containment rules can be enforced and checked.

A tree may have any kind at its top. `WellFormed` only constrains what each container holds.
So an element or a leaf on its own is a well-formed fragment.
A root never appears as a child because no kind allows it.
This is the rule that a root "must not be used as a child".

The declarations put no constraint on names: `Element.name`, `Doctype.name` and `Instruction.name` are plain strings.
The model follows that, so an empty name is accepted.
A stricter reading would refuse a missing or empty element or doctype name; the declarations do not ask for that.
Attribute values keep `null` and `undefined` as two distinct primitives, as the `Primitive` union does.

## Model

| member | source | states |
|---|---|---|
| Xast.ParseTag | types/xast/index.d.ts:43-113 | reading a `type` tag gives the unique kind that declares that tag, and every string outside the seven tags is unknown |
| Xast.TagDeterminesKind | types/xast/index.d.ts:43-113 | the seven `type` tags are pairwise distinct, so two nodes have the same tag exactly when they have the same kind |
| Xast.FieldsMatchDeclarations | types/xast/index.d.ts:19-113 | a node has a `value`, a `name` or children exactly when its interface declares that property; literal kinds are the ones with `value`; leaves have no children; only elements have `attributes`; only doctypes have `public`/`system` |
| Xast.AttributesOf | types/xast/index.d.ts:56-68 | a non-empty attribute map comes only from an element whose optional `attributes` property is present, and a present map is returned as is |
| Xast.Attribute | types/xast/index.d.ts:63-68 | an attribute lookup succeeds exactly for names in the element's attribute map, and returns that name's single scalar value |
| Xast.AbsentAttributesAreEmpty | types/xast/index.d.ts:56-59 | an element without `attributes` answers every lookup the same as one whose attributes are present but empty |
| Containment.AllowedUnder | types/xast/index.d.ts:19-61 | a child kind is allowed under a parent kind exactly when it is in the declared children union: the `Parent` union for a root, the `Element` union for an element, nothing for a leaf |
| Containment.AllowedUnderShape | types/xast/index.d.ts:35-61 | no kind may hold a root; only containers hold anything; everything an element may hold a root may hold too; doctype is the one kind a root may hold and an element may not |
| Containment.WellFormedAt | types/xast/index.d.ts:19-61 | well-formedness is hereditary: every node reached in a well-formed tree roots a well-formed tree, and its children obey its kind's allowed set |
| Containment.WellFormedIffEverywhereValid | types/xast/index.d.ts:19-61 | a tree is well-formed exactly when, at every node reachable by a path, that node's children are of kinds its kind allows |
| Containment.RootNeverBelow | types/xast/index.d.ts:35-38 | in a well-formed tree no node strictly below the top is a root |
| Containment.NoDoctypeBelowElement | types/xast/index.d.ts:47-61 | in a well-formed element tree, no node at any depth is a doctype or a root |
| Containment.DoctypeOnlyUnderTopRoot | types/xast/index.d.ts:35-61 | in a well-formed tree, a doctype below the top is a direct child, and the top is a root |
| Document.ElementCount | types/xast/index.d.ts:39-41 | the result is the number of positions among the children that hold an element; it is at most the number of children, and zero exactly when no child is an element |
| Document.WholeDocumentIff | types/xast/index.d.ts:35-45 | a node is a whole document exactly when it is a root and exactly one of its children is an element, whatever other siblings it has |
| Document.FragmentCounts | types/xast/index.d.ts:35-42 | a root with no element child, or with elements at two different positions, is a fragment and not a whole document |
| Document.NonElementSiblingsIrrelevant | types/xast/index.d.ts:35-45 | adding text, comment, doctype, instruction or cdata siblings anywhere among a root's children never changes whether it is a whole document |
| Document.DocumentElement | types/xast/index.d.ts:39-41 | a whole document has an element child, and it is the only element among the root's children |
| Document.FragmentsAreWellFormed | types/xast/index.d.ts:35-42 | the empty root and a root with two elements are well-formed fragments and not whole documents; a root with one element is a whole document |
| Edit.FirstDisallowed | types/xast/index.d.ts:19-61 | finds no position exactly when every child is allowed under the parent kind; otherwise it finds the first child that is not allowed |
| Edit.ReplaceChildren | types/xast/index.d.ts:19-61 | replacement succeeds exactly when the node is a container and every new child is allowed under it; then only the children change, in the given order; otherwise the error names a leaf parent or the first offending child |
| Edit.ReplacePreservesWellFormed | types/xast/index.d.ts:19-61 | a successful replacement with well-formed children yields a well-formed tree, whatever the node held before |
| Edit.ReplaceWithinKindSucceeds | types/xast/index.d.ts:19-61 | giving a container the children of a well-formed node of its own kind always succeeds, and the result is well-formed |
| Edit.ViolationsSound | types/xast/index.d.ts:19-61 | every path the validator reports leads to a child placed under a parent whose kind may not hold it |
| Edit.ViolationsComplete | types/xast/index.d.ts:19-61 | every child placed under a parent whose kind may not hold it, at any depth, is reported by the validator |
| Edit.ViolationsEmptyIffWellFormed | types/xast/index.d.ts:19-61 | the validator reports nothing exactly when the tree is well-formed |

## Left out

- Positional information and the free-form `data` bag of the unist base interfaces are not modelled. The `unist` package they come from is not part of this model, and nothing in xast inspects them. The same holds for the re-export of the unist `Node` type.
- `Primitive` members `symbol` and `bigint` are left out. JavaScript floating-point `number` is modelled as a mathematical integer (`Num(int)`), because only the scalar, non-nested nature of attribute values matters here.
- Parsing XML into a tree, serialising a tree, namespace or qualified-name splitting, DTD handling and any interchange encoding are left out. None of them is in the declaration file.
- Cycle and sharing detection is left out: Dafny datatypes are finite, acyclic and have no identity, so there is nothing to detect.
- In-place mutation and concurrency are left out: nodes are immutable values, and an edit returns a new node.
- A constructor that refuses a missing or empty name is left out. The declarations type names as plain strings with no such constraint.
