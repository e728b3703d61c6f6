/** Passphrase stretching of `computeStretchKey` (src/pwsafe/crypto.go). */
module Stretch {
  import opened Bytes

  /** `n` further applications of `h`, starting at `x`. */
  function Iterate(h: seq<bv8> -> Bytes32, n: nat, x: Bytes32): Bytes32
    decreases n
  {
    if n == 0 then x else Iterate(h, n - 1, h(x))
  }

  /** The stretched key: the hash of the passphrase followed by the salt, re-hashed
      `iterations` times. */
  function Stretched(h: seq<bv8> -> Bytes32, salt: seq<bv8>, password: seq<bv8>, iterations: nat): Bytes32
  {
    Iterate(h, iterations, h(password + salt))
  }

  /** Each extra iteration applies the hash exactly once more, to the previous result. */
  lemma {:induction false} IterateUnfoldsLast(h: seq<bv8> -> Bytes32, n: nat, x: Bytes32)
    ensures Iterate(h, n + 1, x) == h(Iterate(h, n, x))
    decreases n
  {
    if n > 0 {
      IterateUnfoldsLast(h, n - 1, h(x));
    }
  }

  /** The recurrence the key stretch follows: no iteration hashes passphrase then salt once,
      and iteration `n + 1` re-hashes the result of iteration `n`. */
  lemma StretchedRecurrence(h: seq<bv8> -> Bytes32, salt: seq<bv8>, password: seq<bv8>, n: nat)
    ensures Stretched(h, salt, password, 0) == h(password + salt)
    ensures Stretched(h, salt, password, n + 1) == h(Stretched(h, salt, password, n))
  {
    IterateUnfoldsLast(h, n, h(password + salt));
  }

  /** The Go loop: hash passphrase then salt, then re-hash `iterations` times. */
  method ComputeStretchKey(h: seq<bv8> -> Bytes32, salt: seq<bv8>, password: seq<bv8>, iterations: nat)
    returns (xi: Bytes32)
    ensures xi == Stretched(h, salt, password, iterations)
    ensures iterations == 0 ==> xi == h(password + salt)
    ensures iterations > 0 ==> xi == h(Stretched(h, salt, password, iterations - 1))
  {
    xi := h(password + salt);
    var j := 0;
    while j < iterations
      invariant 0 <= j <= iterations
      invariant Iterate(h, iterations - j, xi) == Stretched(h, salt, password, iterations)
    {
      xi := h(xi);
      j := j + 1;
    }
    if iterations > 0 {
      StretchedRecurrence(h, salt, password, iterations - 1);
    }
  }
}
