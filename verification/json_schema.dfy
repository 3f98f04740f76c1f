/**
 JSON Schema as the differ reads it, and what it means for an instance to be valid.  `$ref`s may
 be recursive, so validity is any relation that satisfies the one-step validation equations.
 */
module JsonSchema {
  import opened Outcomes
  import opened Sorting

  /** What an upper or lower bound measures: maxLength, maximum, maxItems, maxProperties and their mirrors. */
  datatype Quantity = Length | Magnitude | ItemCount | MemberCount

  datatype CombinatorName = OneOf | AnyOf | AllOf

  datatype Combinator = NoCombinator | Branches(branches: seq<Schema>) | Malformed

  /** `additionalProperties`: anything that is neither `false` nor an object leaves extras open. */
  datatype Additional = Open | Closed | Values(schema: Schema)

  /** `items`: absent, one schema, a list of schemas by position, or another value by its text. */
  datatype Items = NoItems | One(schema: Schema) | Tuple(schemas: seq<Schema>) | OtherItems(raw: Text)

  /**
   A schema fragment.  A `$ref` hides its siblings; a fragment that is no object (`true`,
   `false` or something malformed) is known by its text.  The keywords the comparator never reads
   (const, not, format, multipleOf, exclusive bounds, if/then/else, contains and the like) stand
   together in `rest`, an UnreadSchema known by its text and by whether that text holds a `$ref`.
   */
  datatype Schema =
    | LeafSchema(raw: Text)
    | UnreadSchema(text: Text, hasRefs: bool)
    | RefSchema(target: Text)
    | ObjectSchema(
        types: Option<set<Text>>,
        enum: Option<set<Text>>,
        pattern: Option<Text>,
        max: map<Quantity, real>,
        min: map<Quantity, real>,
        required: set<Text>,
        properties: map<Text, Schema>,
        patternProperties: map<Text, Schema>,
        additional: Additional,
        items: Items,
        oneOf: Combinator,
        anyOf: Combinator,
        allOf: Combinator,
        rest: Schema)

  /** The empty schema `{}`. */
  const ANY: Schema := ObjectSchema(None, None, None, map[], map[], {}, map[], map[], Open, NoItems,
                                    NoCombinator, NoCombinator, NoCombinator, UnreadSchema([], false))

  /** Fragments that are no schema objects, known by their text alone. */
  predicate IsText(s: Schema) {
    s.LeafSchema? || s.UnreadSchema?
  }

  function CombinatorOf(s: Schema, name: CombinatorName): Combinator
    requires s.ObjectSchema?
  {
    match name
    case OneOf => s.oneOf
    case AnyOf => s.anyOf
    case AllOf => s.allOf
  }

  /** Where a subschema sits inside a schema object; also one step of a finding's pointer. */
  datatype Slot =
    | Extras
    | Property(name: Text)
    | PatternProperty(regex: Text)
    | Element
    | Position(i: nat)
    | Branch(combinator: CombinatorName, i: nat)
    | Rest
    | Whole(combinator: CombinatorName)

  predicate Has(s: Schema, slot: Slot) {
    s.ObjectSchema? &&
    match slot
    case Extras => s.additional.Values?
    case Property(name) => name in s.properties
    case PatternProperty(regex) => regex in s.patternProperties
    case Element => s.items.One?
    case Position(i) => s.items.Tuple? && i < |s.items.schemas|
    case Branch(c, i) => CombinatorOf(s, c).Branches? && i < |CombinatorOf(s, c).branches|
    case Rest => true
    case Whole(_) => false
  }

  function At(s: Schema, slot: Slot): (c: Schema)
    requires Has(s, slot)
    ensures c < s
  {
    match slot
    case Extras => s.additional.schema
    case Property(name) => s.properties[name]
    case PatternProperty(regex) => s.patternProperties[regex]
    case Element => s.items.schema
    case Position(i) => s.items.schemas[i]
    case Branch(c, i) => BranchAt(s, c, i)
    case Rest => s.rest
  }

  function BranchAt(s: Schema, name: CombinatorName, i: nat): (c: Schema)
    requires s.ObjectSchema? && CombinatorOf(s, name).Branches? && i < |CombinatorOf(s, name).branches|
    ensures c == CombinatorOf(s, name).branches[i]
    ensures c < s
  {
    match name
    case OneOf => s.oneOf.branches[i]
    case AnyOf => s.anyOf.branches[i]
    case AllOf => s.allOf.branches[i]
  }

  /** No `$ref` anywhere inside. */
  ghost predicate RefFree(s: Schema)
    decreases s
  {
    && !s.RefSchema? && !(s.UnreadSchema? && s.hasRefs)
    && forall slot :: Has(s, slot) ==> RefFree(At(s, slot))
  }

  // ----- registries

  /** A document uri and a JSON pointer into it. */
  datatype Key = Key(doc: Text, pointer: Text)

  /** How a tree resolves references: a ref joined to a base, and the fragments that exist. */
  datatype Registry = Registry(split: (Text, Text) -> Key, contents: map<Key, Schema>)

  // ----- instances

  datatype Instance =
    | Null
    | Boolean(b: bool)
    | Number(x: real)
    | Str(s: Text)
    | Array(elements: seq<Instance>)
    | Object(members: map<Text, Instance>)

  /** The validator's primitives; only their arguments matter here. */
  datatype Semantics = Semantics(
    hasType: (Text, Instance) -> bool,
    equalsLiteral: (Text, Instance) -> bool,
    matches: (Text, Text) -> bool,
    leaf: (Text, Instance) -> bool,
    unread: (Text, Instance) -> bool,
    otherItems: (Text, Instance) -> bool)

  ghost function Measure(q: Quantity, v: Instance): Option<real> {
    match q
    case Length => if v.Str? then Some(|v.s| as real) else None
    case Magnitude => if v.Number? then Some(v.x) else None
    case ItemCount => if v.Array? then Some(|v.elements| as real) else None
    case MemberCount => if v.Object? then Some(|v.members| as real) else None
  }

  /** The keywords that look at the instance alone. */
  ghost predicate AcceptsValue(sem: Semantics, s: Schema, v: Instance)
    requires s.ObjectSchema?
  {
    && (s.types.Some? ==> exists t :: t in s.types.value && sem.hasType(t, v))
    && (s.enum.Some? ==> exists e :: e in s.enum.value && sem.equalsLiteral(e, v))
    && (s.pattern.Some? && v.Str? ==> sem.matches(s.pattern.value, v.s))
    && (forall q :: q in s.max && Measure(q, v).Some? ==> Measure(q, v).value <= s.max[q])
    && (forall q :: q in s.min && Measure(q, v).Some? ==> Measure(q, v).value >= s.min[q])
    && (v.Object? ==> forall name :: name in s.required ==> name in v.members)
  }

  /** No property and no pattern speaks for this member. */
  ghost predicate IsExtra(sem: Semantics, s: Schema, name: Text)
    requires s.ObjectSchema?
  {
    name !in s.properties && forall p :: p in s.patternProperties ==> !sem.matches(p, name)
  }

  ghost predicate AcceptsMember(sem: Semantics, s: Schema, child: (Schema, Instance) -> bool, name: Text, w: Instance)
    requires s.ObjectSchema?
  {
    && (name in s.properties ==> child(s.properties[name], w))
    && (forall p :: p in s.patternProperties && sem.matches(p, name) ==> child(s.patternProperties[p], w))
    && (IsExtra(sem, s, name) ==> !s.additional.Closed? && (s.additional.Values? ==> child(s.additional.schema, w)))
  }

  ghost predicate AcceptsElements(sem: Semantics, s: Schema, child: (Schema, Instance) -> bool, v: Instance)
    requires s.ObjectSchema? && v.Array?
  {
    match s.items
    case NoItems => true
    case One(c) => forall i :: 0 <= i < |v.elements| ==> child(c, v.elements[i])
    case Tuple(cs) => forall i :: 0 <= i < |v.elements| && i < |cs| ==> child(cs[i], v.elements[i])
    case OtherItems(raw) => sem.otherItems(raw, v)
  }

  ghost predicate AcceptsBranches(name: CombinatorName, c: Combinator, child: (Schema, Instance) -> bool, v: Instance) {
    c.Branches? ==>
      match name
      case OneOf =>
        && (exists i :: 0 <= i < |c.branches| && child(c.branches[i], v))
        && forall i, j :: 0 <= i < j < |c.branches| ==> !child(c.branches[i], v) || !child(c.branches[j], v)
      case AnyOf => exists i :: 0 <= i < |c.branches| && child(c.branches[i], v)
      case AllOf => forall i :: 0 <= i < |c.branches| ==> child(c.branches[i], v)
  }

  ghost predicate AcceptsMembers(sem: Semantics, s: Schema, child: (Schema, Instance) -> bool, v: Instance)
    requires s.ObjectSchema?
  {
    v.Object? ==> forall name :: name in v.members ==> AcceptsMember(sem, s, child, name, v.members[name])
  }

  ghost predicate AcceptsCombinators(s: Schema, child: (Schema, Instance) -> bool, v: Instance)
    requires s.ObjectSchema?
  {
    forall name :: AcceptsBranches(name, CombinatorOf(s, name), child, v)
  }

  /** One step of validation: a schema object accepts v, given what its subschemas accept. */
  ghost predicate Accepts(sem: Semantics, s: Schema, child: (Schema, Instance) -> bool, v: Instance)
    requires s.ObjectSchema?
  {
    && AcceptsValue(sem, s, v)
    && AcceptsMembers(sem, s, child, v)
    && (v.Array? ==> AcceptsElements(sem, s, child, v))
    && AcceptsCombinators(s, child, v)
    && child(s.rest, v)
  }

  /** A candidate meaning: base uri, schema fragment, instance. */
  type Validity = (Text, Schema, Instance) -> bool

  /**
   The one-step equation at one point.  An unresolvable `$ref` is left unconstrained, and so are
   unread keywords whose text holds a `$ref`: what they mean depends on the tree.
   */
  ghost predicate Equation(reg: Registry, sem: Semantics, valid: Validity, base: Text, s: Schema, v: Instance) {
    match s
    case LeafSchema(raw) => valid(base, s, v) <==> sem.leaf(raw, v)
    case UnreadSchema(text, hasRefs) => !hasRefs ==> (valid(base, s, v) <==> sem.unread(text, v))
    case RefSchema(target) =>
      var key := reg.split(base, target);
      key in reg.contents ==> (valid(base, s, v) <==> valid(key.doc, reg.contents[key], v))
    case _ => valid(base, s, v) <==> Accepts(sem, s, (c, w) => valid(base, c, w), v)
  }

  /** valid is a meaning of the registry's schemas. */
  ghost predicate Models(reg: Registry, sem: Semantics, valid: Validity) {
    forall base, s, v :: Equation(reg, sem, valid, base, s, v)
  }

  // ----- reference resolution

  const MAX_HOPS: nat := 25

  datatype Dereferenced =
    | Unresolved
    | Dereferenced(node: Schema, base: Text, visited: set<Key>, cyclic: bool)

  /** Following a chain of refs, having made some hops already. */
  function DerefFrom(reg: Registry, node: Schema, base: Text, visited: set<Key>, hops: nat): Dereferenced
    requires hops <= MAX_HOPS
    decreases MAX_HOPS - hops
  {
    if !node.RefSchema? then Dereferenced(node, base, visited, false)
    else if hops == MAX_HOPS then Dereferenced(node, base, visited, true)
    else
      var key := reg.split(base, node.target);
      if key in visited then Dereferenced(node, base, visited, true)
      else if key !in reg.contents then Unresolved
      else DerefFrom(reg, reg.contents[key], key.doc, visited + {key}, hops + 1)
  }

  /** `deref`. */
  method Deref(reg: Registry, node: Schema, base: Text, visited: set<Key>) returns (r: Dereferenced)
    ensures r == DerefFrom(reg, node, base, visited, 0)
  {
    var n, b, seen, hops := node, base, visited, 0;
    while n.RefSchema?
      invariant hops <= MAX_HOPS
      invariant DerefFrom(reg, n, b, seen, hops) == DerefFrom(reg, node, base, visited, 0)
      decreases MAX_HOPS - hops
    {
      if hops + 1 > MAX_HOPS {
        return Dereferenced(n, b, seen, true);
      }
      var key := reg.split(b, n.target);
      if key in seen {
        return Dereferenced(n, b, seen, true);
      }
      if key !in reg.contents {
        return Unresolved;
      }
      n, b, seen, hops := reg.contents[key], key.doc, seen + {key}, hops + 1;
    }
    r := Dereferenced(n, b, seen, false);
  }

  /** The keys a chain of refs leads through: each the target of the node before it, there, and new. */
  ghost predicate Follows(reg: Registry, node: Schema, base: Text, visited: set<Key>, keys: seq<Key>)
    decreases |keys|
  {
    keys != [] ==>
      && node.RefSchema? && keys[0] == reg.split(base, node.target)
      && keys[0] in reg.contents && keys[0] !in visited
      && Follows(reg, reg.contents[keys[0]], keys[0].doc, visited + {keys[0]}, keys[1..])
  }

  /** Where a chain of keys ends, and the base there. */
  function EndOf(reg: Registry, node: Schema, base: Text, keys: seq<Key>): (Schema, Text)
    decreases |keys|
  {
    if keys == [] then (node, base)
    else EndOf(reg, if keys[0] in reg.contents then reg.contents[keys[0]] else node, keys[0].doc, keys[1..])
  }

  /**
   Resolution stops where the chain of refs does: at a fragment that is no ref; as cyclic after 25
   hops or before a key already seen; and as unresolved before a key that does not exist.
   */
  lemma {:induction false} DerefFollowsChain(reg: Registry, node: Schema, base: Text, visited: set<Key>, hops: nat)
    returns (keys: seq<Key>)
    requires hops <= 25
    ensures Follows(reg, node, base, visited, keys) && |keys| <= 25 - hops
    ensures var (end, there) := EndOf(reg, node, base, keys);
            var seen := visited + set k | k in keys;
            var r := DerefFrom(reg, node, base, visited, hops);
            if !end.RefSchema? then r == Dereferenced(end, there, seen, false)
            else if |keys| == 25 - hops || reg.split(there, end.target) in seen then r == Dereferenced(end, there, seen, true)
            else reg.split(there, end.target) !in reg.contents && r == Unresolved
    decreases 25 - hops
  {
    keys := [];
    if node.RefSchema? && hops < 25 {
      var key := reg.split(base, node.target);
      if key !in visited && key in reg.contents {
        var rest := DerefFollowsChain(reg, reg.contents[key], key.doc, visited + {key}, hops + 1);
        keys := [key] + rest;
        assert keys[1..] == rest;
        assert (visited + {key}) + (set k | k in rest) == visited + set k | k in keys;
      }
    }
    if keys == [] {
      assert visited + (set k | k in keys) == visited;
    }
  }

  /** Resolution keeps the meaning, even where it stops early. */
  lemma {:induction false} DerefKeepsMeaning(
      reg: Registry, sem: Semantics, valid: Validity, node: Schema, base: Text, visited: set<Key>, hops: nat, v: Instance)
    requires Models(reg, sem, valid) && hops <= MAX_HOPS
    requires DerefFrom(reg, node, base, visited, hops).Dereferenced?
    ensures var d := DerefFrom(reg, node, base, visited, hops);
            && (!d.cyclic ==> !d.node.RefSchema?)
            && (valid(base, node, v) <==> valid(d.base, d.node, v))
    decreases MAX_HOPS - hops
  {
    if node.RefSchema? && hops < MAX_HOPS {
      var key := reg.split(base, node.target);
      assert Equation(reg, sem, valid, base, node, v);
      if key !in visited && key in reg.contents {
        DerefKeepsMeaning(reg, sem, valid, reg.contents[key], key.doc, visited + {key}, hops + 1, v);
      }
    }
  }
}
