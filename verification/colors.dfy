/**
  RGB colours as in nori's `Color3f`, over ideal real arithmetic.
  Arithmetic on colours is channel-wise.
 */
module Colors {

  datatype Color3 = Color3(r: real, g: real, b: real)

  /** `Color3f(0.0f)` */
  const Black := Color3(0.0, 0.0, 0.0)

  /** `Color3f(1.0f)`, the initial path throughput */
  const White := Color3(1.0, 1.0, 1.0)

  function Add(a: Color3, b: Color3): Color3 {
    Color3(a.r + b.r, a.g + b.g, a.b + b.b)
  }

  /** Channel-wise product, `a * b` on two colours */
  function Mul(a: Color3, b: Color3): Color3 {
    Color3(a.r * b.r, a.g * b.g, a.b * b.b)
  }

  function Scale(a: Color3, s: real): Color3 {
    Color3(a.r * s, a.g * s, a.b * s)
  }

  /** `(c.array() == 0).all()`: every channel is exactly zero */
  predicate IsBlack(c: Color3) {
    c.r == 0.0 && c.g == 0.0 && c.b == 0.0
  }

  predicate NonNegative(c: Color3) {
    c.r >= 0.0 && c.g >= 0.0 && c.b >= 0.0
  }

  lemma NonNegativeAdd(a: Color3, b: Color3)
    requires NonNegative(a) && NonNegative(b)
    ensures NonNegative(Add(a, b))
  {}

  lemma NonNegativeMul(a: Color3, b: Color3)
    requires NonNegative(a) && NonNegative(b)
    ensures NonNegative(Mul(a, b))
  {}

  lemma NonNegativeScale(a: Color3, s: real)
    requires NonNegative(a) && s >= 0.0
    ensures NonNegative(Scale(a, s))
  {}
}
