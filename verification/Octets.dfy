/** Bytes as numbers. */
module Octets {

  function Value(b: bv8): (n: nat)
    ensures n < 256
  {
    b as int
  }

  function Octet(n: int): bv8
    requires 0 <= n < 256
  {
    n as bv8
  }

  lemma Next(b: bv8)
    requires b < 255
    ensures Value(b + 1) == Value(b) + 1
  {
  }

  /** By counting up from zero. */
  lemma {:induction false} Counted(n: int) returns (b: bv8)
    requires 0 <= n < 256
    ensures Value(b) == n
    decreases n
  {
    b := 0;
    if n > 0 {
      b := Counted(n - 1);
      NotLast(b);
      Next(b);
      b := b + 1;
    }
  }

  lemma NotLast(b: bv8)
    requires Value(b) < 255
    ensures b < 255
  {
  }

  lemma ValueOf(n: int)
    requires 0 <= n < 256
    ensures Octet(n) as int == n && Value(Octet(n)) == n
  {
    var b := Counted(n);
    OctetOf(b);
  }

  lemma OctetOf(b: bv8)
    ensures Value(b) == b as int && Octet(Value(b)) == b
  {
  }
}
