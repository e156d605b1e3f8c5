/** The Feistel structure of the DES rounds (src/lib/ciphers/des-steps.ts:219-256): a
    round replaces the halves (L, R) by (R, g(key, L, R)), where DES takes
    g(key, L, R) = L xor f(R, key). Whenever g(key, ., R) undoes itself, as XOR with
    the same value does, running the rounds again with the keys in reverse order undoes
    them; this module proves that for any such g. */
module DesFeistel {

  /** The two halves of a block. */
  datatype Halves = Halves(L: string, R: string)

  /** g(key, ., R) is its own inverse. */
  ghost predicate IsMixer(g: (string, string, string) -> string)
  {
    forall key: string, L: string, R: string {:trigger g(key, g(key, L, R), R)} :: g(key, g(key, L, R), R) == L
  }

  function Swap(h: Halves): Halves { Halves(h.R, h.L) }

  /** One round: the old right half moves left, and g makes the new right half. */
  function FeistelRound(g: (string, string, string) -> string, key: string, h: Halves): Halves
  {
    Halves(h.R, g(key, h.L, h.R))
  }

  /** The first n rounds, round i + 1 with key i. */
  function FeistelRounds(g: (string, string, string) -> string, keys: seq<string>, n: nat, h: Halves): Halves
    requires n <= |keys|
  {
    if n == 0 then h else FeistelRound(g, keys[n - 1], FeistelRounds(g, keys, n - 1, h))
  }

  /** One more round on the first n. */
  lemma FeistelRoundsStep(g: (string, string, string) -> string, keys: seq<string>, n: nat, h: Halves)
    requires n < |keys|
    ensures FeistelRounds(g, keys, n + 1, h) == FeistelRound(g, keys[n], FeistelRounds(g, keys, n, h))
  {
  }

  /** A round undoes itself once its halves are exchanged. */
  lemma RoundUndone(g: (string, string, string) -> string, key: string, h: Halves)
    requires IsMixer(g)
    ensures FeistelRound(g, key, Swap(FeistelRound(g, key, h))) == Swap(h)
  {
    assert g(key, g(key, h.L, h.R), h.R) == h.L;
  }

  /** Reversed key i is key j when i + j + 1 is the number of keys. */
  lemma ReversedKey(keys: seq<string>, rev: seq<string>, i: nat, j: nat)
    requires |rev| == |keys| && forall i :: 0 <= i < |keys| ==> rev[i] == keys[|keys| - 1 - i]
    requires i + j + 1 == |keys|
    ensures rev[i] == keys[j]
  {
  }

  /** With the last m - 1 rounds undone by the first m - 1 reversed keys, the next
      reversed key undoes one round more. */
  lemma UnwindStep(g: (string, string, string) -> string, keys: seq<string>, rev: seq<string>, h: Halves, m: nat, k: nat)
    requires IsMixer(g) && m + k == |keys| && m > 0
    requires |rev| == |keys| && forall i :: 0 <= i < |keys| ==> rev[i] == keys[|keys| - 1 - i]
    requires FeistelRounds(g, rev, m - 1, Swap(FeistelRounds(g, keys, |keys|, h))) == Swap(FeistelRounds(g, keys, k + 1, h))
    ensures FeistelRounds(g, rev, m, Swap(FeistelRounds(g, keys, |keys|, h))) == Swap(FeistelRounds(g, keys, k, h))
  {
    FeistelRoundsStep(g, keys, k, h);
    RoundUndone(g, keys[k], FeistelRounds(g, keys, k, h));
    ReversedKey(keys, rev, m - 1, k);
  }

  /** The first m rounds run with the keys reversed undo the last m rounds run with the
      keys; k rounds are left. */
  lemma {:induction false} FeistelUnwinds(g: (string, string, string) -> string, keys: seq<string>, rev: seq<string>,
                                          h: Halves, m: nat, k: nat)
    requires IsMixer(g) && m + k == |keys|
    requires |rev| == |keys| && forall i :: 0 <= i < |keys| ==> rev[i] == keys[|keys| - 1 - i]
    ensures FeistelRounds(g, rev, m, Swap(FeistelRounds(g, keys, |keys|, h))) == Swap(FeistelRounds(g, keys, k, h))
  {
    if m > 0 {
      FeistelUnwinds(g, keys, rev, h, m - 1, k + 1);
      UnwindStep(g, keys, rev, h, m, k);
    }
  }

  /** All rounds run again with the keys in reverse order, on the exchanged halves, give
      back the exchanged halves they started from. */
  lemma {:induction false} FeistelUndone(g: (string, string, string) -> string, keys: seq<string>, rev: seq<string>, h: Halves)
    requires IsMixer(g)
    requires |rev| == |keys| && forall i :: 0 <= i < |keys| ==> rev[i] == keys[|keys| - 1 - i]
    ensures FeistelRounds(g, rev, |rev|, Swap(FeistelRounds(g, keys, |keys|, h))) == Swap(h)
  {
    FeistelUnwinds(g, keys, rev, h, |keys|, 0);
  }

  /** xs steps through the first n rounds: xs(i + 1) is round i + 1 on xs(i). */
  ghost predicate IsChain(g: (string, string, string) -> string, keys: seq<string>, xs: nat -> Halves, n: nat)
    requires n <= |keys|
  {
    forall i :: 0 <= i < n ==> xs(i + 1) == FeistelRound(g, keys[i], xs(i))
  }

  /** A chain is the rounds run on its start. */
  lemma {:induction false} ChainIsRounds(g: (string, string, string) -> string, keys: seq<string>, xs: nat -> Halves, n: nat)
    requires n <= |keys| && IsChain(g, keys, xs, n)
    ensures xs(n) == FeistelRounds(g, keys, n, xs(0))
  {
    if n > 0 {
      assert IsChain(g, keys, xs, n - 1);
      ChainIsRounds(g, keys, xs, n - 1);
      assert xs(n) == FeistelRound(g, keys[n - 1], xs(n - 1));
    }
  }

  /** A chain run with the keys in reverse order from the exchanged end of another
      chain ends at the exchanged start of that chain. */
  lemma ChainUndone(g: (string, string, string) -> string, keys: seq<string>, rev: seq<string>, xs: nat -> Halves, ys: nat -> Halves)
    requires IsMixer(g)
    requires |rev| == |keys| && forall i :: 0 <= i < |keys| ==> rev[i] == keys[|keys| - 1 - i]
    requires IsChain(g, keys, xs, |keys|) && IsChain(g, rev, ys, |rev|) && ys(0) == Swap(xs(|keys|))
    ensures ys(|rev|) == Swap(xs(0))
  {
    ChainIsRounds(g, keys, xs, |keys|);
    ChainIsRounds(g, rev, ys, |rev|);
    FeistelUndone(g, keys, rev, xs(0));
  }
}
