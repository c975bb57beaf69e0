/**
 The round structure of a substitution-permutation cipher, for any layers that can be undone:
 rounds that substitute, mix and add a key, decrypted by the straight inverse order.
 */
module Rounds {

  datatype Layers<!T> = Layers(sub: T -> T, unsub: T -> T, mix: T -> T, unmix: T -> T, add: (T, nat) -> T)

  ghost predicate Invertible<T(!new)>(l: Layers<T>) {
    && (forall s :: l.unsub(l.sub(s)) == s)
    && (forall s :: l.sub(l.unsub(s)) == s)
    && (forall s :: l.unmix(l.mix(s)) == s)
    && (forall s :: l.mix(l.unmix(s)) == s)
    && (forall s, r :: l.add(l.add(s, r), r) == s)
  }

  /** Encryption round `r` of `n`; the last one does not mix. */
  function Round<T>(l: Layers<T>, n: nat, s: T, r: nat): T {
    l.add(if r != n then l.mix(l.sub(s)) else l.sub(s), r)
  }

  /** The state after encryption round `r` of `n`. */
  function Encrypted<T>(l: Layers<T>, n: nat, s: T, r: nat): T {
    if r == 0 then l.add(s, 0) else Round(l, n, Encrypted(l, n, s, r - 1), r)
  }

  /** What decryption does with a state in round `r`; the last one processed does not unmix. */
  function InvRound<T>(l: Layers<T>, s: T, r: nat): T
    requires 1 <= r
  {
    var keyed := l.add(l.unsub(s), r - 1);
    if r != 1 then l.unmix(keyed) else keyed
  }

  /** Decryption's state as it enters round `k`, started in round `r`; entering round 0 is leaving. */
  function Decrypted<T>(l: Layers<T>, s: T, r: nat, k: nat): T
    requires k <= r
    decreases r
  {
    if r == k then s else Decrypted(l, InvRound(l, s, r), r - 1, k)
  }

  function Encrypt<T>(l: Layers<T>, n: nat, s: T): T {
    Encrypted(l, n, s, n)
  }

  function Decrypt<T>(l: Layers<T>, n: nat, s: T): T {
    Decrypted(l, l.add(s, n), n, 0)
  }

  lemma {:induction false} DecryptIs<T>(l: Layers<T>, n: nat, s: T, keyed: T)
    requires keyed == l.add(s, n)
    ensures Decrypt(l, n, s) == Decrypted(l, keyed, n, 0)
  {
  }

  lemma {:induction false} DecryptedFirst<T>(l: Layers<T>, s: T, r: nat, next: T)
    requires 1 <= r && next == InvRound(l, s, r)
    ensures Decrypted(l, s, r, 0) == Decrypted(l, next, r - 1, 0)
  {
  }

  /** One inverse round takes encryption's substituted state of round `r` to that of round `r - 1`. */
  lemma InvRoundOfSub<T(!new)>(l: Layers<T>, n: nat, s: T, r: nat)
    requires Invertible(l) && 1 <= r <= n
    ensures InvRound(l, l.sub(Encrypted(l, n, s, r - 1)), r) ==
            if r == 1 then s else l.sub(Encrypted(l, n, s, r - 2))
  {
    var e := Encrypted(l, n, s, r - 1);
    assert l.unsub(l.sub(e)) == e;
    if r == 1 {
      assert l.add(l.add(s, 0), 0) == s;
    } else {
      var m := l.sub(Encrypted(l, n, s, r - 2));
      assert e == l.add(l.mix(m), r - 1);
      assert l.add(l.add(l.mix(m), r - 1), r - 1) == l.mix(m);
      assert l.unmix(l.mix(m)) == m;
    }
  }

  lemma {:induction false} DecryptedOfSub<T(!new)>(l: Layers<T>, n: nat, s: T, r: nat)
    requires Invertible(l) && 1 <= r <= n
    ensures Decrypted(l, l.sub(Encrypted(l, n, s, r - 1)), r, 0) == s
    decreases r
  {
    InvRoundOfSub(l, n, s, r);
    if r > 1 { DecryptedOfSub(l, n, s, r - 1); }
  }

  /** Decryption undoes encryption. */
  lemma DecryptOfEncrypt<T(!new)>(l: Layers<T>, n: nat, s: T)
    requires Invertible(l) && 1 <= n
    ensures Decrypt(l, n, Encrypt(l, n, s)) == s
  {
    var m := l.sub(Encrypted(l, n, s, n - 1));
    assert l.add(l.add(m, n), n) == m;
    DecryptedOfSub(l, n, s, n);
  }

  lemma {:induction false} DecryptedStep<T>(l: Layers<T>, s: T, r: nat, k: nat)
    requires 1 <= k <= r
    ensures Decrypted(l, s, r, k - 1) == InvRound(l, Decrypted(l, s, r, k), k)
    decreases r
  {
    if r > k { DecryptedStep(l, InvRound(l, s, r), r - 1, k); }
  }

  /** Encrypting what decryption returns meets decryption's states again, in the opposite order. */
  lemma {:induction false} SubOfDecrypted<T(!new)>(l: Layers<T>, n: nat, s: T, k: nat)
    requires Invertible(l) && 1 <= k <= n
    ensures l.sub(Encrypted(l, n, Decrypted(l, s, n, 0), k - 1)) == Decrypted(l, s, n, k)
    decreases k
  {
    var d := Decrypted(l, s, n, 0);
    var p := Decrypted(l, s, n, k);
    var keyed := l.add(l.unsub(p), k - 1);
    DecryptedStep(l, s, n, k);
    assert l.add(keyed, k - 1) == l.unsub(p);
    assert l.sub(l.unsub(p)) == p;
    if k > 1 {
      SubOfDecrypted(l, n, s, k - 1);
      assert l.mix(l.unmix(keyed)) == keyed;
    }
  }

  /** Encryption undoes decryption. */
  lemma EncryptOfDecrypt<T(!new)>(l: Layers<T>, n: nat, s: T)
    requires Invertible(l) && 1 <= n
    ensures Encrypt(l, n, Decrypt(l, n, s)) == s
  {
    SubOfDecrypted(l, n, l.add(s, n), n);
    assert l.add(l.add(s, n), n) == s;
  }
}
