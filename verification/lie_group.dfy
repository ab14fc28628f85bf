/** The group algebra the curves delegate to (rigid-transform composition,
    inversion, exponential and logarithm maps). These are floating-point
    library routines; the model takes them as function values bundled in a
    `LieGroup` and states the identities the curves rely on in `Lawful`. */
module LieGroups {

  /** A tangent-space vector: plain reals, of the group's dimension. */
  type Tangent = seq<real>

  datatype LieGroup<!G> = LieGroup(
    dim: nat,
    identity: G,
    compose: (G, G) -> G,
    inverse: G -> G,
    exp: Tangent -> G,
    log: G -> Tangent)

  function Zeros(n: nat): (z: Tangent)
    ensures |z| == n && forall i :: 0 <= i < n ==> z[i] == 0.0
  {
    seq(n, i => 0.0)
  }

  /** `alpha * v`, componentwise (Eigen's vector-by-scalar product). */
  function Scale(alpha: real, v: Tangent): (r: Tangent)
    ensures |r| == |v| && forall i :: 0 <= i < |v| ==> r[i] == alpha * v[i]
  {
    seq(|v|, i requires 0 <= i < |v| => alpha * v[i])
  }

  /** The group identities: associativity, a two-sided identity and inverse,
      Exp undoing Log, and Exp/Log taking the zero tangent to the identity. */
  ghost predicate Lawful<G(!new)>(g: LieGroup<G>) {
    && (forall a, b, c :: g.compose(g.compose(a, b), c) == g.compose(a, g.compose(b, c)))
    && (forall a :: g.compose(a, g.identity) == a)
    && (forall a :: g.compose(g.identity, a) == a)
    && (forall a :: g.compose(a, g.inverse(a)) == g.identity)
    && (forall a :: g.compose(g.inverse(a), a) == g.identity)
    && (forall a :: |g.log(a)| == g.dim)
    && (forall a :: g.exp(g.log(a)) == a)
    && g.exp(Zeros(g.dim)) == g.identity
    && g.log(g.identity) == Zeros(g.dim)
  }

  lemma ScaleByZero(v: Tangent)
    ensures Scale(0.0, v) == Zeros(|v|)
  {
  }

  lemma ScaleByOne(v: Tangent)
    ensures Scale(1.0, v) == v
  {
  }

  /** (y ∘ x⁻¹) ∘ x == y */
  lemma CancelRight<G(!new)>(g: LieGroup<G>, x: G, y: G)
    requires Lawful(g)
    ensures g.compose(g.compose(y, g.inverse(x)), x) == y
  {
    calc {
      g.compose(g.compose(y, g.inverse(x)), x);
      g.compose(y, g.compose(g.inverse(x), x));
      g.compose(y, g.identity);
      y;
    }
  }

  /** x ∘ (x⁻¹ ∘ y) == y */
  lemma CancelLeft<G(!new)>(g: LieGroup<G>, x: G, y: G)
    requires Lawful(g)
    ensures g.compose(x, g.compose(g.inverse(x), y)) == y
  {
    calc {
      g.compose(x, g.compose(g.inverse(x), y));
      g.compose(g.compose(x, g.inverse(x)), y);
      g.compose(g.identity, y);
      y;
    }
  }

  /** (a ∘ x) ∘ x⁻¹ == a */
  lemma CancelInverseRight<G(!new)>(g: LieGroup<G>, a: G, x: G)
    requires Lawful(g)
    ensures g.compose(g.compose(a, x), g.inverse(x)) == a
  {
    calc {
      g.compose(g.compose(a, x), g.inverse(x));
      g.compose(a, g.compose(x, g.inverse(x)));
      g.compose(a, g.identity);
      a;
    }
  }
}
