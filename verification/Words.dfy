/** Unsigned machine words as their bits, lowest first, and C's operators on them. */
module Words {
  type Bits = seq<bool>

  function Zero(width: nat): (r: Bits)
    ensures |r| == width
  {
    seq(width, i => false)
  }

  function One(width: nat): (r: Bits)
    ensures |r| == width
  {
    seq(width, i => i == 0)
  }

  function Or(v: Bits, w: Bits): (r: Bits)
    requires |v| == |w|
    ensures |r| == |v|
  {
    seq(|v|, i requires 0 <= i < |v| => v[i] || w[i])
  }

  function And(v: Bits, w: Bits): (r: Bits)
    requires |v| == |w|
    ensures |r| == |v|
  {
    seq(|v|, i requires 0 <= i < |v| => v[i] && w[i])
  }

  function ShiftLeft(v: Bits, n: nat): (r: Bits)
    ensures |r| == |v|
  {
    seq(|v|, i requires 0 <= i < |v| => n <= i && v[i - n])
  }

  function ShiftRight(v: Bits, n: nat): (r: Bits)
    ensures |r| == |v|
  {
    seq(|v|, i requires 0 <= i < |v| => i + n < |v| && v[i + n])
  }
}
