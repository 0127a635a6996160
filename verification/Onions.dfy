/**
 Type onions: for each level of pointers of a value, whether it is a pointer and whether it may hold
 abstract content.  The core is the innermost content; each shell is one pointer further out, and
 the outermost layer describes the value itself.
 */
module Onions {

  datatype Tristate = No | Yes | Maybe

  function JoinTristate(a: Tristate, b: Tristate): Tristate {
    if a == b then a else Maybe
  }

  datatype Layer = Layer(pointer: Tristate, content: Tristate)

  function JoinLayer(a: Layer, b: Layer): Layer {
    Layer(JoinTristate(a.pointer, b.pointer), JoinTristate(a.content, b.content))
  }

  /** `content` is the `abstract` field of a layer. */
  datatype Onion = Core(layer: Layer) | Shell(inner: Onion, layer: Layer) {

    function Size(): nat {
      if Core? then 1 else inner.Size() + 1
    }

    /** What the content fields come to together. */
    function Content(): Tristate {
      if Core? then layer.content else JoinTristate(inner.Content(), layer.content)
    }

    function WithCore(l: Layer): Onion {
      if Core? then Core(l) else Shell(inner.WithCore(l), layer)
    }

    function MakeAbstract(): Onion {
      this.(layer := layer.(content := Yes))
    }

    function MakePointer(): Onion {
      this.(layer := layer.(pointer := Yes))
    }

    function MakeAbstractPointer(): Onion {
      MakeAbstract().MakePointer().WithCore(Layer(Maybe, Maybe))
    }

    /** The type of a pointer to a value of this type. */
    function Wrap(): Onion {
      Shell(this, Layer(Yes, No))
    }

    /** What a pointer of this type points to. */
    function Peel(): Onion {
      if Core? then Core(layer.(pointer := Maybe)) else inner
    }

    /** The program asserts this before it peels a shell. */
    predicate Peelable() {
      Shell? ==> layer.pointer != No
    }

    /** Every layer but the core may be a pointer. */
    predicate Sound() {
      Shell? ==> layer.pointer != No && inner.Sound()
    }

    /** The value itself may hold abstract content: the outermost layer says so. */
    predicate IsAbstract() {
      layer.content != No
    }

    /** Weight of the steps left before nothing can change: layers, and fields still decided. */
    function Weight(): nat {
      1 + Decided(layer.pointer) + Decided(layer.content) + if Core? then 0 else inner.Weight()
    }
  }

  function Decided(t: Tristate): nat {
    if t.Maybe? then 0 else 1
  }

  /** The onion of a value with `nest` levels of pointers, before anything is known to be abstract. */
  function Fresh(nest: nat): Onion {
    if nest == 0 then Core(Layer(No, No)) else Shell(Fresh(nest - 1), Layer(Yes, No))
  }

  /** Join, outermost layers first.  Where one onion ends, the layers left in the other are taken into
      the core, which then may or may not be a pointer. */
  function Join(a: Onion, b: Onion): Onion {
    match (a, b)
    case (Core(x), Core(y)) => Core(JoinLayer(x, y))
    case (Shell(i, x), Shell(j, y)) => Shell(Join(i, j), JoinLayer(x, y))
    case _ => Core(Layer(Maybe, JoinTristate(a.Content(), b.Content())))
  }

  /** The order the join induces: `b` knows no more than `a`. */
  predicate Leq(a: Onion, b: Onion) {
    Join(a, b) == b
  }

  // ----- the semilattice

  lemma JoinCommutes(a: Onion, b: Onion)
    ensures Join(a, b) == Join(b, a)
  {
  }

  lemma JoinIdempotent(a: Onion)
    ensures Join(a, a) == a
  {
  }

  lemma TristateSemilattice(a: Tristate, b: Tristate, c: Tristate)
    ensures JoinTristate(a, b) == JoinTristate(b, a)
    ensures JoinTristate(JoinTristate(a, b), c) == JoinTristate(a, JoinTristate(b, c))
  {
  }

  lemma {:induction false} ContentOfJoin(a: Onion, b: Onion)
    ensures Join(a, b).Content() == JoinTristate(a.Content(), b.Content())
  {
    if a.Shell? && b.Shell? {
      ContentOfJoin(a.inner, b.inner);
      var x, y := a.layer.content, b.layer.content;
      TristateSemilattice(a.inner.Content(), b.inner.Content(), JoinTristate(x, y));
      TristateSemilattice(b.inner.Content(), x, y);
      TristateSemilattice(x, b.inner.Content(), y);
    }
  }

  /** An onion without its `k` outermost layers. */
  function Beneath(o: Onion, k: nat): Onion
    requires k < o.Size()
  {
    if k == 0 then o else Beneath(o.inner, k - 1)
  }

  /** Join layer by layer, counted from the outside: layers that both onions have are joined with each other.  Where
      nestings differ, the core may or may not be a pointer, and takes in the content of all that is left of both. */
  lemma {:induction false} JoinLayerwise(a: Onion, b: Onion, k: nat)
    requires k < a.Size() && k < b.Size()
    ensures Join(a, b).Size() == if a.Size() < b.Size() then a.Size() else b.Size()
    ensures var x, y, z := Beneath(a, k), Beneath(b, k), Beneath(Join(a, b), k);
            && (x.Core? == y.Core? ==> z.layer == JoinLayer(x.layer, y.layer))
            && (x.Core? != y.Core? ==> z == Core(Layer(Maybe, JoinTristate(x.Content(), y.Content()))))
  {
    if a.Shell? && b.Shell? {
      JoinLayerwise(a.inner, b.inner, if k > 0 then k - 1 else 0);
    }
  }

  /** Join is associative for onions of any depths. */
  lemma {:induction false} JoinAssociates(a: Onion, b: Onion, c: Onion)
    ensures Join(Join(a, b), c) == Join(a, Join(b, c))
  {
    ContentOfJoin(a, b);
    ContentOfJoin(b, c);
    if a.Shell? && b.Shell? && c.Shell? {
      JoinAssociates(a.inner, b.inner, c.inner);
    }
  }

  // ----- the order

  lemma LeqReflexive(a: Onion)
    ensures Leq(a, a)
  {
    JoinIdempotent(a);
  }

  lemma LeqAntisymmetric(a: Onion, b: Onion)
    requires Leq(a, b) && Leq(b, a)
    ensures a == b
  {
    JoinCommutes(a, b);
  }

  lemma LeqTransitive(a: Onion, b: Onion, c: Onion)
    requires Leq(a, b) && Leq(b, c)
    ensures Leq(a, c)
  {
    JoinAssociates(a, b, c);
  }

  /** The join is the least upper bound. */
  lemma JoinIsLub(a: Onion, b: Onion, c: Onion)
    ensures Leq(a, Join(a, b)) && Leq(b, Join(a, b))
    ensures Leq(Join(a, b), c) <==> Leq(a, c) && Leq(b, c)
  {
    JoinCommutes(a, b);
    JoinAssociates(a, a, b);
    JoinAssociates(b, b, a);
    JoinIdempotent(a);
    JoinIdempotent(b);
    JoinAssociates(a, b, c);
    if Leq(Join(a, b), c) {
      JoinAssociates(a, a, Join(b, c));
      JoinAssociates(b, b, Join(a, c));
      JoinAssociates(b, a, c);
    }
  }

  // ----- wrapping and peeling

  /** Wrapping is a homomorphism of joins, and peeling undoes it. */
  lemma WrapHomomorphism(a: Onion, b: Onion)
    ensures Join(a.Wrap(), b.Wrap()) == Join(a, b).Wrap()
    ensures a.Wrap().Peel() == a
    ensures Leq(a.Wrap(), b.Wrap()) <==> Leq(a, b)
  {
  }

  lemma ContentLeq(a: Onion, b: Onion)
    requires Leq(a, b)
    ensures JoinTristate(a.Content(), b.Content()) == b.Content()
  {
    ContentOfJoin(a, b);
  }

  /** Peeling keeps the order, also where the two onions end at different depths. */
  lemma PeelMonotone(a: Onion, b: Onion)
    requires Leq(a, b)
    ensures Leq(a.Peel(), b.Peel())
  {
    ContentLeq(a, b);
    if a.Shell? && b.Core? {
      assert Join(a.inner, b.Peel()).Core?;
    }
  }

  lemma OuterMonotone(a: Onion, b: Onion)
    requires Leq(a, b)
    ensures Leq(Core(a.layer), Core(b.layer))
  {
  }

  // ----- the assertion in peeling

  lemma SoundKept(a: Onion, b: Onion)
    requires a.Sound() && b.Sound()
    ensures Join(a, b).Sound() && a.Wrap().Sound() && a.Peel().Sound() && a.Peelable()
    ensures a.MakeAbstract().Sound() && a.MakeAbstractPointer().Sound()
  {
    WithCoreSound(a.MakeAbstract().MakePointer(), Layer(Maybe, Maybe));
  }

  lemma WithCoreSound(a: Onion, l: Layer)
    requires a.Sound()
    ensures a.WithCore(l).Sound()
  {
  }

  // ----- the weight

  lemma ContentWeight(a: Onion)
    ensures a.Weight() >= a.Size() * (1 + Decided(a.Content()))
  {
  }

  /** Going up strictly lowers the weight. */
  lemma {:induction false} WeightDrops(a: Onion, b: Onion)
    requires Leq(a, b) && a != b
    ensures b.Weight() < a.Weight()
  {
    if a.Shell? && b.Shell? && a.inner != b.inner {
      WeightDrops(a.inner, b.inner);
    } else if a.Shell? && b.Core? {
      ContentWeight(a);
      ContentLeq(a, b);
    }
  }

  /** Before anything is known to be abstract, a value is a pointer if it has a nesting, and nothing is abstract. */
  lemma {:induction false} FreshConcrete(nest: nat)
    ensures Fresh(nest).Size() == nest + 1 && Fresh(nest).Content() == No
    ensures Fresh(nest).layer == Layer(if nest > 0 then Yes else No, No)
    ensures nest > 0 ==> Fresh(nest).Peel() == Fresh(nest - 1)
  {
    if nest > 0 {
      FreshConcrete(nest - 1);
    }
  }

  lemma FreshWeight(nest: nat)
    ensures Fresh(nest).Weight() == 3 * (nest + 1) && Fresh(nest).Size() == nest + 1 && Fresh(nest).Sound()
  {
  }
}
