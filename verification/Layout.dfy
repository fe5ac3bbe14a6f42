/** Prover and verifier derive one layout from different data. */
module Layout {
  import opened Curves
  import opened Indexes
  import opened Suites
  import opened Bbs
  import opened Issuance
  import opened Presentation

  /** The mask over the slots with the prover blind's slot, which is never chosen, in the middle. */
  function SlotMask(mask: seq<bool>, split: nat): (r: seq<bool>)
    requires split <= |mask|
    ensures |r| == |mask| + 1
  {
    mask[..split] + [false] + mask[split..]
  }

  lemma SlotMaskWhere(a: seq<bool>, b: seq<bool>)
    ensures Where(a + [false] + b) == Where(a) + Shifted(Where(b), |a| + 1)
  {
    hide Where;
    WhereConcat(a + [false], b);
    WhereSnocFalse(a);
  }

  lemma HalvesAreSlots(a: seq<bool>, b: seq<bool>)
    ensures ProofIndexes(Where(a + b), |a|) == Where(a + [false] + b)
  {
    hide Where, ProofIndexes, Shifted;
    SlotMaskWhere(a, b);
    WhereConcat(a, b);
    WhereIs(a);
    ProofIndexesOfHalves(Where(a), Where(b), |a|);
  }

  /** `proof_index` maps the chosen messages to the chosen slots. */
  lemma ProofIndexesAreSlots(mask: seq<bool>, split: nat)
    requires split <= |mask|
    ensures ProofIndexes(Where(mask), split) == Where(SlotMask(mask, split))
  {
    hide Where, ProofIndexes;
    HalvesAreSlots(mask[..split], mask[split..]);
    assert mask[..split] + mask[split..] == mask;
  }

  lemma WhereSnocFalse(a: seq<bool>)
    ensures Where(a + [false]) == Where(a)
  {
    assert (a + [false])[..|a|] == a;
  }

  lemma ProofIndexesOfHalves(x: seq<nat>, y: seq<nat>, split: nat)
    requires Below(x, split)
    ensures ProofIndexes(x + Shifted(y, split), split) == x + Shifted(y, split + 1)
  {
  }

  /** The message in a slot other than the blind's. */
  function Original(i: nat, split: nat): nat
    requires i != split
  {
    if i < split then i else i - 1
  }

  /** The indexes either side hands to the core: strictly increasing, in range, and exactly the slots
      of the messages with that choice, so never the blind's slot. */
  lemma SlotsAreValid(choices: seq<Disclosure>, d: Disclosure, split: nat)
    requires split <= |choices|
    ensures var slots := ProofIndexes(Chosen(choices, d), split);
            && Increasing(slots) && Below(slots, |choices| + 1)
            && forall i: nat :: i in slots <==> i < |choices| + 1 && i != split && choices[Original(i, split)] == d
  {
    hide Where;
    var mask := Mask(choices, d);
    ProofIndexesAreSlots(mask, split);
    WhereIs(SlotMask(mask, split));
    forall i: nat | i < |choices| + 1
      ensures SlotMask(mask, split)[i] <==> i != split && choices[Original(i, split)] == d
    {
    }
  }

  lemma SlotsAreDisjoint(choices: seq<Disclosure>, a: Disclosure, b: Disclosure, split: nat)
    requires split <= |choices| && a != b
    ensures Disjoint(ProofIndexes(Chosen(choices, a), split), ProofIndexes(Chosen(choices, b), split))
  {
    hide Where;
    var x, y := ProofIndexes(Chosen(choices, a), split), ProofIndexes(Chosen(choices, b), split);
    SlotsAreValid(choices, a, split);
    SlotsAreValid(choices, b, split);
    forall i | 0 <= i < |x| ensures x[i] !in y {
      assert x[i] in x;
    }
  }

  /** The hidden slots with the keys: those of the messages, then the `k` key slots, which are
      always last and always hidden. */
  lemma HiddenSlotsWithKeys(l: nat, k: nat, disclosed: seq<nat>)
    requires Increasing(disclosed) && Below(disclosed, l)
    ensures Complement(l + k, disclosed) == Complement(l, disclosed) + Range(l, k)
    ensures |Complement(l, disclosed)| + |disclosed| == l
  {
    hide Where;
    var shown := seq(l, i requires 0 <= i => i in disclosed);
    IncreasingIsWhere(disclosed, l);
    ComplementOfWhere(shown);
    WhereCount(shown);
    assert seq(l + k, i requires 0 <= i => i !in disclosed) == Not(shown) + Repeat(true, k) by {
      forall i | l <= i < l + k ensures i !in disclosed {
        BelowMember(disclosed, l, i);
      }
    }
    assert seq(l, i requires 0 <= i => i !in disclosed) == Not(shown);
    WhereConcat(Not(shown), Repeat(true, k));
    WhereAll(k);
    assert Shifted(Range(0, k), l) == Range(l, k);
  }

  /** The committed slots sit at the same places among the hidden ones on both sides. */
  lemma {:induction false} PositionsWithKeys(ji: seq<nat>, extra: seq<nat>, indexes: seq<nat>)
    requires Positions(ji, indexes).Ok?
    ensures Positions(ji + extra, indexes) == Positions(ji, indexes)
  {
    if indexes != [] {
      var n := |indexes| - 1;
      assert indexes == indexes[..n] + [indexes[n]];
      PositionsWithKeys(ji, extra, indexes[..n]);
      IndexInPrefix(ji, extra, indexes[n]);
    }
  }

  /** The verifier's count, from the length of the embedded proof alone, is the message count. */
  lemma CountIsRecovered(choices: seq<Disclosure>, k: nat, hidden: nat, split: nat)
    requires split <= |choices|
    requires hidden == |Complement(|choices| + 1, ProofIndexes(Chosen(choices, Disclose), split))|
    ensures var len := PROOF_FLOOR + SCALAR_LENGTH * (hidden + k);
            (len - PROOF_FLOOR) / SCALAR_LENGTH + |Chosen(choices, Disclose)| == |choices| + (1 + k)
  {
    SlotsAreValid(choices, Disclose, split);
    HiddenSlotsWithKeys(|choices| + 1, 0, ProofIndexes(Chosen(choices, Disclose), split));
  }

  /** A committed slot is always hidden, so it always has a position. */
  lemma CommittedAreHidden(l: nat, disclosed: seq<nat>, committed: seq<nat>)
    requires Below(committed, l) && Disjoint(committed, disclosed)
    ensures Positions(Complement(l, disclosed), committed).Ok?
  {
    WhereIs(seq(l, i requires 0 <= i => i !in disclosed));
    forall i | 0 <= i < |committed| ensures committed[i] in Complement(l, disclosed) {
      assert committed[i] !in disclosed;
    }
  }

  /** The layout theorem. From the prover's choices, split and keys, and from the verifier's count
      recovered out of the proof length, both sides get the same slots: the disclosed and the hidden
      slots partition all `l + 1 + k`, the blind's slot and every key slot are hidden, the key slots
      come last, and slot `l + 1 + i` is generated by key generator `i`. */
  lemma LayoutAgrees(s: Suite, choices: seq<Disclosure>, split: nat, k: nat)
    requires split <= |choices|
    ensures var l := |choices|;
            var shown := ProofIndexes(Chosen(choices, Disclose), split);
            var provers, verifiers := Complement(l + 1, shown) + Range(l + 1, k), Complement(l + 1 + k, shown);
            var total := (PROOF_FLOOR + SCALAR_LENGTH * |provers| - PROOF_FLOOR) / SCALAR_LENGTH + |shown| - (1 + k);
            && provers == verifiers && total == l
            && Increasing(shown) && Increasing(verifiers)
            && (forall i :: 0 <= i < l + 1 + k ==> (i in shown <==> i !in verifiers))
            && (forall i :: i in shown || i in verifiers ==> i < l + 1 + k)
            && split in verifiers && (forall i :: l + 1 <= i < l + 1 + k ==> i in verifiers)
            && AllGens(s, split, l, k)[l + 2..] == KeyGenerators(s, k)
  {
    hide Where;
    var l := |choices|;
    var shown := ProofIndexes(Chosen(choices, Disclose), split);
    SlotsAreValid(choices, Disclose, split);
    HiddenSlotsWithKeys(l + 1, k, shown);
    CountIsRecovered(choices, k, |Complement(l + 1, shown)|, split);
    WhereIs(seq(l + 1 + k, i requires 0 <= i => i !in shown));
  }
}
