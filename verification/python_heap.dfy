/**
 Python values as the canonicalisers see them.

 Scalars are told apart by exact type, and containers stand behind identities, so that a
 container may be shared or contain itself.  A heap maps identities to cells.  Nothing forbids
 cycles: walks end because they are bounded in depth, and the bound on steps at the end of this
 module holds for any heap.
 */
module PythonHeap {
  import opened Sorting
  import opened DecimalText

  /** `id(x)` of an exact list or dict. */
  type Ref = nat

  /** A float; a finite one by its sign and the repr of its magnitude. */
  datatype Float = NotANumber | Infinite | Finite(neg: bool, repr: Text)

  /** Foreign is any value that is not exactly one of the JSON built-ins, subclasses included. */
  datatype Value =
    | NoneValue
    | BoolValue(b: bool)
    | IntValue(i: int)
    | FloatValue(f: Float)
    | TextValue(s: Text)
    | Container(ref: Ref)
    | Foreign

  datatype Key = TextKey(s: Text) | ForeignKey

  datatype Entry = Entry(key: Key, value: Value)

  datatype Cell = ListCell(items: seq<Value>) | DictCell(entries: seq<Entry>)

  type Heap = map<Ref, Cell>

  function Children(c: Cell): seq<Value> {
    match c
    case ListCell(items) => items
    case DictCell(entries) => seq(|entries|, i requires 0 <= i < |entries| => entries[i].value)
  }

  /** References lead into the heap and finite floats have a repr. */
  ghost predicate ValidValue(h: Heap, v: Value) {
    match v
    case Container(r) => r in h
    case FloatValue(Finite(_, repr)) => IsDecimalText(repr)
    case _ => true
  }

  ghost predicate ValidCell(h: Heap, c: Cell) {
    && (forall i :: 0 <= i < |Children(c)| ==> ValidValue(h, Children(c)[i]))
    && (c.DictCell? ==> forall i, j :: 0 <= i < j < |c.entries| && c.entries[i].key.TextKey? ==>
                                         c.entries[i].key != c.entries[j].key)
  }

  ghost predicate ValidHeap(h: Heap) {
    forall r :: r in h ==> ValidCell(h, h[r])
  }

  /** A path of containers, each a child of the one before, starting at v itself. */
  ghost predicate IsPath(h: Heap, v: Value, p: seq<Ref>) {
    && p != []
    && v == Container(p[0])
    && (forall i :: 0 <= i < |p| ==> p[i] in h)
    && (forall i :: 0 <= i < |p| - 1 ==> Container(p[i + 1]) in Children(h[p[i]]))
  }

  lemma PathStep(h: Heap, r: Ref, v: Value, q: seq<Ref>)
    requires r in h && v in Children(h[r]) && IsPath(h, v, q)
    ensures IsPath(h, Container(r), [r] + q)
  {
    var p := [r] + q;
    forall i | 0 <= i < |p| - 1 ensures Container(p[i + 1]) in Children(h[p[i]]) {
      if i > 0 {
        assert p[i] == q[i - 1] && p[i + 1] == q[i];
      }
    }
  }

  lemma PathTail(h: Heap, v: Value, p: seq<Ref>)
    requires IsPath(h, v, p) && |p| > 1
    ensures IsPath(h, Container(p[1]), p[1..]) && Container(p[1]) in Children(h[p[0]])
  {
  }

  // ----- a termination measure for walks bounded in depth

  /** No container of the heap has more than w children. */
  ghost predicate WidthAtMost(h: Heap, w: nat) {
    forall r :: r in h ==> |Children(h[r])| <= w
  }

  lemma WidthExists(h: Heap) returns (w: nat)
    ensures WidthAtMost(h, w)
  {
    if h == map[] {
      w := 0;
    } else {
      var r :| r in h;
      var rest := h - {r};
      var w' := WidthExists(rest);
      w := if |Children(h[r])| > w' then |Children(h[r])| else w';
      forall q | q in h ensures |Children(h[q])| <= w {
        assert q != r ==> q in rest && rest[q] == h[q];
      }
    }
  }

  /**
   Steps a work-stack walk can spend on one value with `fuel` levels left, if every container
   has at most w children.  It needs no acyclicity: the depth limit bounds the levels.
   */
  ghost function StepBound(w: nat, fuel: nat): (n: nat)
    ensures n > 0
  {
    if fuel == 0 then 1 else 4 + w * (2 + StepBound(w, fuel - 1))
  }
}
