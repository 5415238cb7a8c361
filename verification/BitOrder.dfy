// The unsigned order of 32-bit vectors, one byte at a time: whole-word chains of comparisons
// are out of a solver's reach.

module BitOrder {

  predicate NotAbove(a: bv32, b: bv32) {
    a <= b
  }

  predicate After(a: bv32, b: bv32) {
    a > b
  }

  function High(x: bv32): bv32 {
    x >> 8
  }

  function Low(x: bv32): bv32 {
    x & 0xFF
  }

  lemma HighsFollow(x: bv32, y: bv32)
    requires NotAbove(x, y)
    ensures NotAbove(High(x), High(y))
  {
  }

  lemma LowsFollow(x: bv32, y: bv32)
    requires NotAbove(x, y) && High(x) == High(y)
    ensures NotAbove(Low(x), Low(y))
  {
  }

  lemma HighsDecide(x: bv32, y: bv32)
    requires !NotAbove(High(y), High(x))
    ensures NotAbove(x, y)
  {
  }

  lemma LowsDecide(x: bv32, y: bv32)
    requires High(x) == High(y) && NotAbove(Low(x), Low(y))
    ensures NotAbove(x, y)
  {
  }

  lemma LowsChain(x: bv32, y: bv32, z: bv32)
    requires NotAbove(Low(x), Low(y)) && NotAbove(Low(y), Low(z))
    ensures NotAbove(Low(x), Low(z))
  {
  }

  lemma LowsMeet(x: bv32, y: bv32)
    requires NotAbove(Low(x), Low(y)) && NotAbove(Low(y), Low(x))
    ensures Low(x) == Low(y)
  {
  }

  lemma HighAndLow(x: bv32, y: bv32)
    requires High(x) == High(y) && Low(x) == Low(y)
    ensures x == y
  {
  }

  /** x fits n bytes. */
  predicate Bytes(x: bv32, n: nat)
    decreases n
  {
    if n == 0 then x == 0 else Bytes(High(x), n - 1)
  }

  lemma FourBytes(x: bv32)
    ensures Bytes(x, 4)
  {
    var x1, x2, x3 := High(x), High(High(x)), High(High(High(x)));
    assert High(x3) == 0;
    hide High;
    assert Bytes(x3, 1) && Bytes(x2, 2) && Bytes(x1, 3);
  }

  lemma {:induction false} Meet(x: bv32, y: bv32, n: nat)
    requires Bytes(x, n) && Bytes(y, n) && NotAbove(x, y) && NotAbove(y, x)
    ensures x == y
    decreases n
  {
    hide NotAbove, High, Low;
    if n > 0 {
      HighsFollow(x, y);
      HighsFollow(y, x);
      Meet(High(x), High(y), n - 1);
      LowsFollow(x, y);
      LowsFollow(y, x);
      LowsMeet(x, y);
      HighAndLow(x, y);
    }
  }

  lemma {:induction false} Chain(x: bv32, y: bv32, z: bv32, n: nat)
    requires Bytes(x, n) && Bytes(y, n) && Bytes(z, n) && NotAbove(x, y) && NotAbove(y, z)
    ensures NotAbove(x, z)
    decreases n
  {
    hide NotAbove, High, Low;
    if n > 0 {
      HighsFollow(x, y);
      HighsFollow(y, z);
      if !NotAbove(High(z), High(x)) {
        HighsDecide(x, z);
      } else {
        Chain(High(x), High(y), High(z), n - 1);
        Chain(High(z), High(x), High(y), n - 1);
        Meet(High(x), High(z), n - 1);
        Meet(High(y), High(z), n - 1);
        LowsFollow(x, y);
        LowsFollow(y, z);
        LowsChain(x, y, z);
        LowsDecide(x, z);
      }
    }
  }

  lemma NotAboveChains(x: bv32, y: bv32, z: bv32)
    requires NotAbove(x, y) && NotAbove(y, z)
    ensures NotAbove(x, z)
  {
    FourBytes(x);
    FourBytes(y);
    FourBytes(z);
    Chain(x, y, z, 4);
    hide NotAbove, Bytes;
  }

  lemma AfterIsStrict(a: bv32, b: bv32)
    ensures After(a, b) <==> !NotAbove(a, b)
  {
  }

  lemma NotAboveSelf(a: bv32)
    ensures NotAbove(a, a)
  {
  }

  lemma AfterIsAbove(a: bv32, b: bv32)
    requires After(a, b)
    ensures NotAbove(b, a)
  {
  }

  lemma NotAboveMeets(a: bv32, b: bv32)
    requires NotAbove(a, b) && NotAbove(b, a)
    ensures a == b
  {
    FourBytes(a);
    FourBytes(b);
    Meet(a, b, 4);
    hide NotAbove, Bytes;
  }

  lemma NotAboveTotal(a: bv32, b: bv32)
    ensures NotAbove(a, b) || NotAbove(b, a)
  {
    AfterIsStrict(a, b);
    if After(a, b) {
      AfterIsAbove(a, b);
    }
    hide NotAbove, After;
  }
}
