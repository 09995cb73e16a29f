/** A cipher made of keyed rounds, each of which can be undone: key addition, any number of middle rounds
    and a last round. */
module RoundCipher {

  datatype Steps<!K, !S> = Steps(
    add: (K, S) -> S,
    round: (K, S) -> S, invRound: (K, S) -> S,
    last: (K, S) -> S, invLast: (K, S) -> S)

  ghost predicate Undoes<K(!new), S(!new)>(f: (K, S) -> S, g: (K, S) -> S) {
    forall k: K, s: S :: g(k, f(k, s)) == s
  }

  ghost predicate Invertible<K(!new), S(!new)>(c: Steps<K, S>) {
    Undoes(c.add, c.add) && Undoes(c.round, c.invRound) && Undoes(c.last, c.invLast)
  }

  /** The middle rounds 1 to `n`. */
  function Rounds<K, S>(c: Steps<K, S>, keys: seq<K>, n: nat, s: S): S
    requires n < |keys|
  {
    if n == 0 then s else c.round(keys[n], Rounds(c, keys, n - 1, s))
  }

  /** The inverses of rounds `n` down to 1. */
  function InvRounds<K, S>(c: Steps<K, S>, keys: seq<K>, n: nat, s: S): S
    requires n < |keys|
  {
    if n == 0 then s else InvRounds(c, keys, n - 1, c.invRound(keys[n], s))
  }

  function Encrypt<K, S>(c: Steps<K, S>, keys: seq<K>, s: S): S
    requires |keys| >= 2
  {
    c.last(keys[|keys| - 1], Rounds(c, keys, |keys| - 2, c.add(keys[0], s)))
  }

  function Decrypt<K, S>(c: Steps<K, S>, keys: seq<K>, s: S): S
    requires |keys| >= 2
  {
    c.add(keys[0], InvRounds(c, keys, |keys| - 2, c.invLast(keys[|keys| - 1], s)))
  }

  lemma {:induction false} RoundsUndone<K(!new), S(!new)>(c: Steps<K, S>, keys: seq<K>, n: nat, s: S)
    requires Invertible(c) && n < |keys|
    ensures InvRounds(c, keys, n, Rounds(c, keys, n, s)) == s
  {
    if n > 0 {
      RoundsUndone(c, keys, n - 1, s);
    }
  }

  /** Decryption undoes encryption, for every list of at least two round keys. */
  lemma DecryptUndoesEncrypt<K(!new), S(!new)>(c: Steps<K, S>, keys: seq<K>, s: S)
    requires Invertible(c) && |keys| >= 2
    ensures Decrypt(c, keys, Encrypt(c, keys, s)) == s
  {
    var t := c.add(keys[0], s);
    RoundsUndone(c, keys, |keys| - 2, t);
    assert c.invLast(keys[|keys| - 1], Encrypt(c, keys, s)) == Rounds(c, keys, |keys| - 2, t);
  }

  /** The loop of encrypt_state over the middle round keys. */
  method RunRounds<K, S>(c: Steps<K, S>, keys: seq<K>, start: S) returns (s: S)
    requires |keys| >= 2
    ensures s == Rounds(c, keys, |keys| - 2, start)
  {
    s := start;
    for i := 1 to |keys| - 1
      invariant s == Rounds(c, keys, i - 1, start)
    {
      s := c.round(keys[i], s);
    }
  }

  /** The loop of decrypt_state over the middle round keys, last key first. */
  method RunInvRounds<K, S>(c: Steps<K, S>, keys: seq<K>, start: S) returns (s: S)
    requires |keys| >= 2
    ensures s == InvRounds(c, keys, |keys| - 2, start)
  {
    s := start;
    var i := |keys| - 2;
    while i > 0
      invariant 0 <= i <= |keys| - 2
      invariant InvRounds(c, keys, i, s) == InvRounds(c, keys, |keys| - 2, start)
    {
      s := c.invRound(keys[i], s);
      i := i - 1;
    }
  }
}
