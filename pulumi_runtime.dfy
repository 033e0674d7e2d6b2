/**
 * The resource-declaration side of the Pulumi runtime, reduced to what a
 * component constructor can observe: each declared resource is recorded, in
 * order, as a registration (type token, logical name, whether it is a custom
 * or a component resource, options, inputs), and a resource's handle is its
 * position in that record. Registered outputs are kept per handle.
 */
module Pulumi {
  import opened Optional

  type Handle = nat

  /** The resource options the model keeps: the parent, and `protect` standing for the rest. */
  datatype ResourceOptions = ResourceOptions(parent: Option<Handle>, protect: bool)

  /** `ResourceOptions(parent=p)`. */
  function ChildOptions(parent: Handle): ResourceOptions {
    ResourceOptions(Some(parent), false)
  }

  /** A future-resolved output of a declared resource, such as `repository.name`. */
  datatype OutputRef = OutputRef(resource: Handle, property: string)

  datatype Registration<I> = Registration(
    typ: string,
    name: string,
    custom: bool,
    opts: Option<ResourceOptions>,
    inputs: I)

  /** The registrations of one type, in declaration order. */
  function OfType<I(!new)>(rs: seq<Registration<I>>, typ: string): (r: seq<Registration<I>>)
    ensures |r| <= |rs|
    ensures forall k :: 0 <= k < |r| ==> r[k] in rs && r[k].typ == typ
  {
    if rs == [] then []
    else (if rs[0].typ == typ then [rs[0]] else []) + OfType(rs[1..], typ)
  }

  /** The registrations whose parent is `h`, in declaration order. */
  function ChildrenOf<I(!new)>(rs: seq<Registration<I>>, h: Handle): (r: seq<Registration<I>>)
    ensures |r| <= |rs|
    ensures forall k :: 0 <= k < |r| ==> r[k] in rs && r[k].opts.Some? && r[k].opts.value.parent == Some(h)
  {
    if rs == [] then []
    else
      (if rs[0].opts.Some? && rs[0].opts.value.parent == Some(h) then [rs[0]] else [])
      + ChildrenOf(rs[1..], h)
  }

  /** Filtering by type loses nothing: every registration of that type is kept, as often as it was recorded. */
  lemma {:induction false} OfTypeCounts<I(!new)>(rs: seq<Registration<I>>, typ: string)
    ensures forall x :: multiset(OfType(rs, typ))[x] == (if x.typ == typ then multiset(rs)[x] else 0)
  {
    if rs != [] {
      assert rs == [rs[0]] + rs[1..];
      OfTypeCounts(rs[1..], typ);
    }
  }

  /** Every registration naming `h` as its parent is among its children, as often as it was recorded. */
  lemma {:induction false} ChildrenOfCounts<I(!new)>(rs: seq<Registration<I>>, h: Handle)
    ensures forall x :: multiset(ChildrenOf(rs, h))[x]
                     == (if x.opts.Some? && x.opts.value.parent == Some(h) then multiset(rs)[x] else 0)
  {
    if rs != [] {
      assert rs == [rs[0]] + rs[1..];
      ChildrenOfCounts(rs[1..], h);
    }
  }

  /** The runtime's record of declared resources and registered outputs. */
  class Runtime<I> {
    var resources: seq<Registration<I>>
    var outputs: map<Handle, map<string, string>>

    constructor ()
      ensures resources == [] && outputs == map[]
    {
      resources := [];
      outputs := map[];
    }

    /** Declares a resource; its handle is the number of resources declared before it. */
    method RegisterResource(r: Registration<I>) returns (h: Handle)
      modifies this
      ensures h == |old(resources)|
      ensures resources == old(resources) + [r]
      ensures outputs == old(outputs)
    {
      h := |resources|;
      resources := resources + [r];
    }

    /** `register_outputs`: records the outputs of an already declared resource. */
    method RegisterOutputs(h: Handle, outs: map<string, string>)
      modifies this
      ensures outputs == old(outputs)[h := outs]
      ensures resources == old(resources)
    {
      outputs := outputs[h := outs];
    }
  }
}
