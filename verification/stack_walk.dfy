/**
 What the two prevalidation walks share.

 A container pushes its close marker and then its children in order, so the children pop last
 first and the marker after all of them.  The walks differ in what they check on the way, the
 profile's admission rules or the node budget, but what entering a container leaves to do and
 why that is less work than the visit was are the same.
 */
module StackWalk {
  import opened PythonHeap
  import opened Fp2Encoder

  predicate HasForeignKey(c: Cell) {
    c.DictCell? && exists i :: 0 <= i < |c.entries| && c.entries[i].key.ForeignKey?
  }

  function Visits(vs: seq<Value>, depth: nat): seq<Work> {
    seq(|vs|, i requires 0 <= i < |vs| => Visit(vs[i], depth))
  }

  /** What entering a sound container leaves to do. */
  ghost function Entered(h: Heap, ref: Ref, depth: nat, rest: seq<Work>): seq<Work>
    requires ref in h
  {
    Visits(Reverse(Children(h[ref])), depth + 1) + ([Close(ref)] + rest)
  }

  lemma StackReversed(work: seq<Work>, ref: Ref, children: seq<Value>, depth: nat)
    ensures Reverse(work + [Close(ref)] + Visits(children, depth))
         == Visits(Reverse(children), depth) + ([Close(ref)] + Reverse(work))
  {
  }

  /** The weight of a container's children is less than that of its visit. */
  lemma {:induction false} VisitsWeight(vs: seq<Value>, depth: nat, rest: seq<Work>, w: nat)
    requires depth <= MAX_DEPTH + 1
    requires forall i :: 0 <= i < |rest| ==> rest[i].Visit? ==> rest[i].depth <= MAX_DEPTH + 1
    ensures Weight(Visits(vs, depth) + rest, w) == |vs| * StepBound(w, MAX_DEPTH + 1 - depth) + Weight(rest, w)
  {
    var agenda := Visits(vs, depth) + rest;
    if vs == [] {
      assert agenda == rest;
    } else {
      VisitsWeight(vs[1..], depth, rest, w);
      assert agenda == [Visit(vs[0], depth)] + (Visits(vs[1..], depth) + rest);
      WeightOfFirst(Visit(vs[0], depth), Visits(vs[1..], depth) + rest, w);
      OneMore(|vs|, StepBound(w, MAX_DEPTH + 1 - depth));
    }
  }

  lemma EnteringWeighsLess(h: Heap, ref: Ref, depth: nat, rest: seq<Work>, w: nat)
    requires ValidHeap(h) && ref in h && depth <= MAX_DEPTH && WidthAtMost(h, w) && ValidAgenda(h, rest)
    ensures forall i :: 0 <= i < |Entered(h, ref, depth, rest)| ==>
              Entered(h, ref, depth, rest)[i].Visit? ==> Entered(h, ref, depth, rest)[i].depth <= MAX_DEPTH + 1
    ensures Weight(Entered(h, ref, depth, rest), w) < Weight([Visit(Container(ref), depth)] + rest, w)
  {
    var vs, b := Reverse(Children(h[ref])), StepBound(w, MAX_DEPTH - depth);
    WeightOfFirst(Close(ref), rest, w);
    WeightOfFirst(Visit(Container(ref), depth), rest, w);
    VisitsWeight(vs, depth + 1, [Close(ref)] + rest, w);
    ChildrenFit(|vs|, w, b);
  }

  lemma ChildrenFit(n: nat, w: nat, b: nat)
    requires n <= w
    ensures n * b + 1 < 4 + w * (2 + b)
  {
    NoMoreThan(n, w, b);
    assert w * (2 + b) == w * b + 2 * w;
  }
}
