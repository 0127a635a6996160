/** Onions as the program stores them: a vector of layers, innermost first, updated in place. */
module LayerVectors {
  import opened Onions

  type Layers = v: seq<Layer> | |v| > 0 witness [Layer(No, No)]

  function Back(v: Layers): Layer {
    v[|v| - 1]
  }

  /** The onion a vector stands for. */
  function View(v: Layers): (o: Onion)
    ensures o.Size() == |v| && o.layer == Back(v)
  {
    if |v| == 1 then Core(v[0]) else Shell(View(v[..|v| - 1]), Back(v))
  }

  function ToVector(o: Onion): (v: Layers)
    ensures View(v) == o
  {
    if o.Core? then [o.layer] else Snoc(ToVector(o.inner), o.layer)
  }

  function Snoc(v: Layers, l: Layer): (r: Layers)
    ensures View(r) == Shell(View(v), l)
  {
    var r := v + [l];
    assert r[..|r| - 1] == v;
    r
  }

  /** A vector is determined by its onion. */
  lemma {:induction false} ViewInjective(u: Layers, v: Layers)
    requires View(u) == View(v)
    ensures u == v
  {
    if |u| > 1 {
      ViewInjective(u[..|u| - 1], v[..|v| - 1]);
      assert u == u[..|u| - 1] + [Back(u)];
      assert v == v[..|v| - 1] + [Back(v)];
    }
  }

  // ----- copies with a change

  function FreshVector(nest: nat): (v: Layers)
    ensures View(v) == Fresh(nest)
  {
    if nest == 0 then [Layer(No, No)] else Snoc(FreshVector(nest - 1), Layer(Yes, No))
  }

  method MakeAbstract(v: Layers) returns (r: Layers)
    ensures View(r) == View(v).MakeAbstract()
  {
    r := v[|v| - 1 := Back(v).(content := Yes)];
    assert |v| > 1 ==> r[..|r| - 1] == v[..|v| - 1];
  }

  lemma {:induction false} SetFront(v: Layers, l: Layer)
    ensures View(v[0 := l]) == View(v).WithCore(l)
  {
    if |v| > 1 {
      SetFront(v[..|v| - 1], l);
      assert v[0 := l][..|v| - 1] == v[..|v| - 1][0 := l];
    }
  }

  method MakeAbstractPointer(v: Layers) returns (r: Layers)
    ensures View(r) == View(v).MakeAbstractPointer()
  {
    r := MakeAbstract(v);
    var s := r[|r| - 1 := Back(r).(pointer := Yes)];
    assert |r| > 1 ==> s[..|s| - 1] == r[..|r| - 1];
    assert View(s) == View(r).MakePointer();
    SetFront(s, Layer(Maybe, Maybe));
    r := s[0 := s[0].(content := Maybe)];
    r := r[0 := r[0].(pointer := Maybe)];
    assert r == s[0 := Layer(Maybe, Maybe)];
  }

  method Wrap(v: Layers) returns (r: Layers)
    ensures View(r) == View(v).Wrap()
  {
    r := Snoc(v, Layer(Yes, No));
  }

  /** The precondition is the assertion in the program. */
  method Peel(v: Layers) returns (r: Layers)
    requires View(v).Peelable()
    ensures View(r) == View(v).Peel()
  {
    if |v| == 1 {
      r := v[0 := v[0].(pointer := Maybe)];
    } else {
      assert Back(v).pointer != No;
      r := v[..|v| - 1];
    }
  }

  // ----- join in place

  /** `y` is the deeper one; its first layers have gone into the front of `x`, and `z` is the rest of
      the join. */
  lemma {:induction false} FrontFolded(x: Layers, y: Layers, front: Layer, z: Layers)
    requires |x| <= |y| && |z| == |x|
    requires |x| < |y| ==> front == Layer(Maybe, JoinTristate(x[0].content, View(y[..|y| - |x|]).Content()))
    requires |x| == |y| ==> front == x[0]
    requires z[0] == JoinLayer(front, y[|y| - |x|])
    requires forall k :: 0 < k < |x| ==> z[k] == JoinLayer(x[k], y[k + |y| - |x|])
    ensures View(z) == Join(View(x), View(y))
  {
    var d := |y| - |x|;
    if |x| > 1 {
      var x', y', z' := x[..|x| - 1], y[..|y| - 1], z[..|x| - 1];
      assert y[..d] == y'[..d];
      FrontFolded(x', y', front, z');
    } else if d > 0 {
      assert y[..|y| - 1] == y[..d];
      TristateSemilattice(x[0].content, View(y[..d]).Content(), Back(y).content);
    }
  }

  /** The first loop: the layers of `b` that are too deep for `a` go into the front of `a`. */
  method FoldFront(x: Layers, b: Layers, d: nat) returns (a: Layers)
    requires 0 < d < |b|
    ensures |a| == |x| && forall k :: 0 < k < |a| ==> a[k] == x[k]
    ensures a[0] == Layer(Maybe, JoinTristate(x[0].content, View(b[..d]).Content()))
  {
    a := x;
    for i := 0 to d
      invariant |a| == |x| && forall k :: 0 < k < |a| ==> a[k] == x[k]
      invariant i == 0 ==> a[0] == x[0]
      invariant i > 0 ==> a[0].content == JoinTristate(x[0].content, View(b[..i]).Content())
    {
      assert i > 0 ==> b[..i + 1][..i] == b[..i];
      TristateSemilattice(x[0].content, if i > 0 then View(b[..i]).Content() else No, b[i].content);
      a := a[0 := JoinLayer(a[0], b[i])];
    }
    a := a[0 := a[0].(pointer := Maybe)];
  }

  method JoinInPlace(x: Layers, y: Layers) returns (a: Layers)
    ensures View(a) == Join(View(x), View(y))
  {
    a := x;
    var b := y;
    if |a| > |b| {
      a, b := b, a;
    }
    ghost var shallow := a;
    var d := |b| - |a|;
    if |a| < |b| {
      a := FoldFront(a, b, d);
    }
    ghost var front := a[0];
    for i := 0 to |a|
      invariant |a| == |shallow|
      invariant forall k :: 0 <= k < i ==> a[k] == JoinLayer(if k == 0 then front else shallow[k], b[k + d])
      invariant forall k :: i <= k < |a| ==> a[k] == if k == 0 then front else shallow[k]
    {
      a := a[i := JoinLayer(a[i], b[i + d])];
    }
    FrontFolded(shallow, b, front, a);
    JoinCommutes(View(x), View(y));
  }
}
