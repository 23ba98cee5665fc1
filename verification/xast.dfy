/**
 * The xast node vocabulary: seven closed node kinds, their `type` tags and the
 * fields each kind declares. Positional and free-form `data` information from
 * the unist base interfaces is not part of this model.
 */
module Xast {
  import opened Wrappers

  /** An attribute value: a scalar JavaScript primitive, never a nested structure.
      Numbers are modelled as mathematical integers. */
  datatype Primitive = Null | Undefined | Str(s: string) | Num(n: int) | Bool(b: bool)

  /** An element's attribute table: each attribute name, occurring once as a map key, holds one scalar. */
  type Attributes = map<string, Primitive>

  /** The closed set of node kinds, one per `type` tag. */
  datatype Kind = RootKind | ElementKind | TextKind | CommentKind | DoctypeKind | InstructionKind | CdataKind

  /** An xast node. Containers (`Root`, `Element`) hold children in document order;
      the remaining kinds are leaves. */
  datatype Node =
    | Root(children: seq<Node>)
    | Element(name: string, attributes: Option<Attributes>, children: seq<Node>)
    | Text(value: string)
    | Comment(value: string)
    | Doctype(name: string, publicId: Option<string>, systemId: Option<string>)
    | Instruction(name: string, value: string)
    | Cdata(value: string)

  /** The kind a node's `type` tag announces. */
  function KindOf(n: Node): Kind {
    match n
    case Root(_) => RootKind
    case Element(_, _, _) => ElementKind
    case Text(_) => TextKind
    case Comment(_) => CommentKind
    case Doctype(_, _, _) => DoctypeKind
    case Instruction(_, _) => InstructionKind
    case Cdata(_) => CdataKind
  }

  /** The literal `type` tag each node interface declares. */
  function TypeTag(k: Kind): string {
    match k
    case RootKind => "root"
    case ElementKind => "element"
    case TextKind => "text"
    case CommentKind => "comment"
    case DoctypeKind => "doctype"
    case InstructionKind => "instruction"
    case CdataKind => "cdata"
  }

  /** Reads a `type` tag back into a kind; any string outside the seven tags is unknown. */
  function ParseTag(t: string): (r: Option<Kind>)
    ensures r.Some? ==> TypeTag(r.value) == t
    ensures forall k :: TypeTag(k) == t ==> r == Some(k)
  {
    if t == "root" then Some(RootKind)
    else if t == "element" then Some(ElementKind)
    else if t == "text" then Some(TextKind)
    else if t == "comment" then Some(CommentKind)
    else if t == "doctype" then Some(DoctypeKind)
    else if t == "instruction" then Some(InstructionKind)
    else if t == "cdata" then Some(CdataKind)
    else None
  }

  /** The seven tags are pairwise distinct, so a tag determines its kind. */
  lemma TagDeterminesKind(j: Kind, k: Kind)
    ensures TypeTag(j) == TypeTag(k) <==> j == k
  {
  }

  /** Kinds extending the `Parent` interface: they carry `children`. */
  predicate IsParent(k: Kind) {
    k == RootKind || k == ElementKind
  }

  /** Kinds extending the `Literal` interface: they carry a string `value`. */
  predicate IsLiteral(k: Kind) {
    k == TextKind || k == CommentKind || k == InstructionKind || k == CdataKind
  }

  /** The properties each interface declares (required and optional), besides `type`. */
  function DeclaredFields(k: Kind): set<string> {
    match k
    case RootKind => {"children"}
    case ElementKind => {"name", "attributes", "children"}
    case TextKind => {"value"}
    case CommentKind => {"value"}
    case DoctypeKind => {"name", "public", "system"}
    case InstructionKind => {"name", "value"}
    case CdataKind => {"value"}
  }

  /** A node's children in document order; leaves have none. */
  function Children(n: Node): seq<Node> {
    if n.Root? || n.Element? then n.children else []
  }

  /** A node's `value`, when its kind carries one. */
  function Value(n: Node): Option<string> {
    if n.Text? || n.Comment? || n.Instruction? || n.Cdata? then Some(n.value) else None
  }

  /** A node's `name`, when its kind carries one. */
  function Name(n: Node): Option<string> {
    if n.Element? || n.Doctype? || n.Instruction? then Some(n.name) else None
  }

  /** An element's attributes; an absent `attributes` property reads as the empty map. */
  function AttributesOf(n: Node): (m: Attributes)
    ensures m != map[] ==> n.Element? && n.attributes == Some(m)
    ensures n.Element? && n.attributes.Some? ==> m == n.attributes.value
  {
    if n.Element? && n.attributes.Some? then n.attributes.value else map[]
  }

  /** The value of one attribute of an element, if set. */
  function Attribute(n: Node, key: string): (v: Option<Primitive>)
    ensures v.Some? <==> key in AttributesOf(n)
    ensures v.Some? ==> n.Element? && n.attributes.Some? && n.attributes.value[key] == v.value
  {
    var m := AttributesOf(n);
    if key in m then Some(m[key]) else None
  }

  /** An element without an `attributes` property answers every lookup exactly as
      one whose attributes are present but empty. */
  lemma AbsentAttributesAreEmpty(name: string, cs: seq<Node>, key: string)
    ensures Attribute(Element(name, None, cs), key) == Attribute(Element(name, Some(map[]), cs), key) == None
  {
  }

  /** Every datatype accessor agrees with the interface declarations: a node has
      a `value`, a `name` or `children` exactly when its interface declares one,
      and the literal and parent kinds are the ones declaring `value` and `children`. */
  lemma FieldsMatchDeclarations(n: Node)
    ensures Value(n).Some? <==> "value" in DeclaredFields(KindOf(n))
    ensures Name(n).Some? <==> "name" in DeclaredFields(KindOf(n))
    ensures IsLiteral(KindOf(n)) <==> "value" in DeclaredFields(KindOf(n))
    ensures IsParent(KindOf(n)) <==> "children" in DeclaredFields(KindOf(n))
    ensures !IsParent(KindOf(n)) ==> Children(n) == []
    ensures ("attributes" in DeclaredFields(KindOf(n))) <==> n.Element?
    ensures ("public" in DeclaredFields(KindOf(n))) <==> n.Doctype?
    ensures ("system" in DeclaredFields(KindOf(n))) <==> n.Doctype?
  {
  }
}
