/** The scene graph of `Shape.cpp`: a node holds its own model transform, an optional mesh
    and an ordered list of child nodes, all changed in place. */
module Scene {
  import opened Sequences

  /** Model matrices, kept symbolic: `Product(a, b)` is the 4×4 product `a * b`. */
  datatype Mat4 = Identity | Matrix(id: int) | Product(left: Mat4, right: Mat4)

  /** 2D model transforms, kept symbolic likewise. */
  datatype Mat3 = Identity2D | Matrix2D(id: int)

  /** One request to draw a mesh with a model matrix. */
  datatype DrawCall = DrawCall(mesh: Mesh, matrix: Mat4)

  /** The draw-call list filled by reference while the graph is walked, as the requests
      arrive. */
  class DrawCallList {
    var calls: seq<DrawCall>

    constructor ()
      ensures calls == []
    {
      calls := [];
    }
  }

  /** A mesh. What it adds per primitive is not part of this model: it adds one request
      with the matrix it is given. */
  class Mesh {
    method GetDrawCallList(list: DrawCallList, transform: Mat4)
      modifies list
      ensures list.calls == old(list.calls) + [DrawCall(this, transform)]
    {
      list.calls := list.calls + [DrawCall(this, transform)];
    }
  }

  class Mesh2D {
  }

  class Shape {
    var transform: Mat4
    var mesh: Mesh?
    var shapes: seq<Shape>

    /** `Shape(const ModelTransform &)`: no mesh, no children. */
    constructor FromTransform(t: Mat4)
      ensures transform == t && mesh == null && shapes == []
    {
      transform, mesh, shapes := t, null, [];
    }

    /** `Shape(const Mesh &)`: the default transform. */
    constructor FromMesh(r: Mesh)
      ensures transform == Identity && mesh == r && shapes == []
    {
      transform, mesh, shapes := Identity, r, [];
    }

    /** `Shape(const Mesh &, const ModelTransform &)`. */
    constructor (r: Mesh, t: Mat4)
      ensures transform == t && mesh == r && shapes == []
    {
      transform, mesh, shapes := t, r, [];
    }

    /** Both `setMesh` overloads: the mesh becomes `r`; nothing else changes. */
    method SetMesh(r: Mesh?)
      modifies this
      ensures mesh == r
      ensures shapes == old(shapes) && transform == old(transform)
    {
      mesh := r;
    }

    /** `removeMesh`: no mesh; nothing else changes. */
    method RemoveMesh()
      modifies this
      ensures mesh == null
      ensures shapes == old(shapes) && transform == old(transform)
    {
      mesh := null;
    }

    /** Both `addChild` overloads, for a non-null child: `r` goes at the end, even when it is
        a child already. */
    method AddChild(r: Shape)
      modifies this
      ensures shapes == old(shapes) + [r]
      ensures mesh == old(mesh) && transform == old(transform)
    {
      shapes := shapes + [r];
    }

    /** Both `removeChild` overloads, for a non-null child: the first occurrence of `r` goes,
        if there is one. */
    method RemoveChild(r: Shape)
      modifies this
      ensures shapes == RemoveFirst(old(shapes), r)
      ensures mesh == old(mesh) && transform == old(transform)
    {
      var i := Find(shapes, r);
      if i < |shapes| {
        RemoveFirstAt(shapes, r, i);
        shapes := shapes[..i] + shapes[i + 1..];
      } else {
        RemoveFirstAbsent(shapes, r);
      }
    }

    /** `getDrawCallList`: the children's requests, each child in order, with this node's
        matrix `transform * parent`, then this node's mesh, if any. */
    method GetDrawCallList(list: DrawCallList, parent: Mat4, ghost nodes: set<Shape>, ghost h: nat)
      requires Acyclic(this, h, nodes)
      modifies list
      ensures list.calls == old(list.calls) + DrawCalls(this, parent, h, nodes)
      decreases h
    {
      var modelMatrix := Product(transform, parent);
      assert forall j :: 0 <= j < |shapes| ==> shapes[j] in shapes;
      for i := 0 to |shapes|
        invariant forall j :: 0 <= j < |shapes| ==> Acyclic(shapes[j], h - 1, nodes)
        invariant list.calls == old(list.calls) + ChildrenCalls(shapes[..i], modelMatrix, h - 1, nodes)
      {
        assert shapes[i] in shapes;
        assert shapes[..i + 1][..i] == shapes[..i];
        shapes[i].GetDrawCallList(list, modelMatrix, nodes, h - 1);
      }
      assert shapes[..|shapes|] == shapes;
      if mesh != null {
        mesh.GetDrawCallList(list, modelMatrix);
      }
    }
  }

  /** Every node reachable from `n` is in `nodes` and lies fewer than `h` levels below `n`:
      the graph below `n` has no cycle. */
  ghost predicate Acyclic(n: Shape, h: nat, nodes: set<Shape>)
    reads nodes
    decreases h
  {
    h > 0 && n in nodes && forall c :: c in n.shapes ==> Acyclic(c, h - 1, nodes)
  }

  /** The requests `getDrawCallList` adds for `n` under the parent matrix `parent`. */
  ghost function DrawCalls(n: Shape, parent: Mat4, h: nat, nodes: set<Shape>): seq<DrawCall>
    requires Acyclic(n, h, nodes)
    reads nodes
    decreases h, 0, 0
  {
    var m := Product(n.transform, parent);
    ChildrenCalls(n.shapes, m, h - 1, nodes) + if n.mesh != null then [DrawCall(n.mesh, m)] else []
  }

  /** The requests of the children `cs`, in order, under the matrix `m`. */
  ghost function ChildrenCalls(cs: seq<Shape>, m: Mat4, h: nat, nodes: set<Shape>): seq<DrawCall>
    requires forall c :: c in cs ==> Acyclic(c, h, nodes)
    reads nodes
    decreases h, 1, |cs|
  {
    if cs == [] then []
    else ChildrenCalls(cs[..|cs| - 1], m, h, nodes) + DrawCalls(cs[|cs| - 1], m, h, nodes)
  }

  /** `m` is `parent` multiplied on the left by zero or more matrices. */
  predicate Under(m: Mat4, parent: Mat4)
  {
    m == parent || (m.Product? && Under(m.right, parent))
  }

  /** Every request made for a subtree carries the parent matrix, multiplied on the left by
      the transforms of the nodes on the way down. */
  lemma {:induction false} DrawCallsUnder(n: Shape, parent: Mat4, h: nat, nodes: set<Shape>)
    requires Acyclic(n, h, nodes)
    ensures forall d :: d in DrawCalls(n, parent, h, nodes) ==> Under(d.matrix, Product(n.transform, parent))
    decreases h, 0, 0
  {
    var m := Product(n.transform, parent);
    ChildrenCallsUnder(n.shapes, m, h - 1, nodes);
  }

  lemma {:induction false} ChildrenCallsUnder(cs: seq<Shape>, m: Mat4, h: nat, nodes: set<Shape>)
    requires forall c :: c in cs ==> Acyclic(c, h, nodes)
    ensures forall d :: d in ChildrenCalls(cs, m, h, nodes) ==> Under(d.matrix, m)
    decreases h, 1, |cs|
  {
    if cs != [] {
      var last := cs[|cs| - 1];
      ChildrenCallsUnder(cs[..|cs| - 1], m, h, nodes);
      DrawCallsUnder(last, m, h, nodes);
      forall d | d in DrawCalls(last, m, h, nodes)
        ensures Under(d.matrix, m)
      {
        UnderProduct(d.matrix, last.transform, m);
      }
    }
  }

  /** A matrix under `t * m` is under `m`. */
  lemma {:induction false} UnderProduct(x: Mat4, t: Mat4, m: Mat4)
    requires Under(x, Product(t, m))
    ensures Under(x, m)
  {
    if x != Product(t, m) {
      UnderProduct(x.right, t, m);
    }
  }

  /** A node's own mesh is drawn after all of its children, with the node's matrix; without
      a mesh the node adds only its children's requests. */
  lemma OwnMeshLast(n: Shape, parent: Mat4, h: nat, nodes: set<Shape>)
    requires Acyclic(n, h, nodes)
    ensures n.mesh != null ==>
      (var calls := DrawCalls(n, parent, h, nodes);
       |calls| > 0 && calls[|calls| - 1] == DrawCall(n.mesh, Product(n.transform, parent)))
    ensures n.mesh == null ==> DrawCalls(n, parent, h, nodes) == ChildrenCalls(n.shapes, Product(n.transform, parent), h - 1, nodes)
  {
  }

  /** A subtree requests one draw per node with a mesh. */
  ghost function MeshCount(n: Shape, h: nat, nodes: set<Shape>): nat
    requires Acyclic(n, h, nodes)
    reads nodes
    decreases h, 0, 0
  {
    ChildrenMeshCount(n.shapes, h - 1, nodes) + if n.mesh != null then 1 else 0
  }

  ghost function ChildrenMeshCount(cs: seq<Shape>, h: nat, nodes: set<Shape>): nat
    requires forall c :: c in cs ==> Acyclic(c, h, nodes)
    reads nodes
    decreases h, 1, |cs|
  {
    if cs == [] then 0 else ChildrenMeshCount(cs[..|cs| - 1], h, nodes) + MeshCount(cs[|cs| - 1], h, nodes)
  }

  /** The walk visits every node of the subtree once: it requests exactly as many draws as
      the subtree has meshes, whatever the matrices. */
  lemma {:induction false} DrawCallsCount(n: Shape, parent: Mat4, h: nat, nodes: set<Shape>)
    requires Acyclic(n, h, nodes)
    ensures |DrawCalls(n, parent, h, nodes)| == MeshCount(n, h, nodes)
    decreases h, 0, 0
  {
    ChildrenCallsCount(n.shapes, Product(n.transform, parent), h - 1, nodes);
  }

  lemma {:induction false} ChildrenCallsCount(cs: seq<Shape>, m: Mat4, h: nat, nodes: set<Shape>)
    requires forall c :: c in cs ==> Acyclic(c, h, nodes)
    ensures |ChildrenCalls(cs, m, h, nodes)| == ChildrenMeshCount(cs, h, nodes)
    decreases h, 1, |cs|
  {
    if cs != [] {
      ChildrenCallsCount(cs[..|cs| - 1], m, h, nodes);
      DrawCallsCount(cs[|cs| - 1], m, h, nodes);
    }
  }

  /** The 2D scene node: the same child list and mesh pointer over 2D meshes. */
  class Shape2D {
    var transform: Mat3
    var mesh: Mesh2D?
    var shapes: seq<Shape2D>

    /** `Shape2D(const ModelTransform2D &)`: no mesh, no children. */
    constructor FromTransform(t: Mat3)
      ensures transform == t && mesh == null && shapes == []
    {
      transform, mesh, shapes := t, null, [];
    }

    /** `Shape2D(const Mesh2D &)`: the default transform. */
    constructor FromMesh(r: Mesh2D)
      ensures transform == Identity2D && mesh == r && shapes == []
    {
      transform, mesh, shapes := Identity2D, r, [];
    }

    /** `Shape2D(const Mesh2D &, const ModelTransform2D &)`. */
    constructor (r: Mesh2D, t: Mat3)
      ensures transform == t && mesh == r && shapes == []
    {
      transform, mesh, shapes := t, r, [];
    }

    method SetMesh(r: Mesh2D?)
      modifies this
      ensures mesh == r
      ensures shapes == old(shapes) && transform == old(transform)
    {
      mesh := r;
    }

    method RemoveMesh()
      modifies this
      ensures mesh == null
      ensures shapes == old(shapes) && transform == old(transform)
    {
      mesh := null;
    }

    method AddChild(r: Shape2D)
      modifies this
      ensures shapes == old(shapes) + [r]
      ensures mesh == old(mesh) && transform == old(transform)
    {
      shapes := shapes + [r];
    }

    method RemoveChild(r: Shape2D)
      modifies this
      ensures shapes == RemoveFirst(old(shapes), r)
      ensures mesh == old(mesh) && transform == old(transform)
    {
      var i := Find(shapes, r);
      if i < |shapes| {
        RemoveFirstAt(shapes, r, i);
        shapes := shapes[..i] + shapes[i + 1..];
      } else {
        RemoveFirstAbsent(shapes, r);
      }
    }
  }
}
