/**
 * The Poseidon sponge over the BN254 field, written once in TypeScript
 * (aggregator/src/verify/poseidon.ts) and once in Python (edge/hal/poseidon.py). The
 * permutation is an arbitrary function on states. Both loops absorb one element at a time
 * into a state they update in place; both are proved to fold the permutation over the
 * message's blocks of four, for integers of any sign and size.
 */
module Poseidon {
  const BN254_FIELD_SIZE: nat :=
    21888242871839275222246405745257275088548364400416034343698204186575808495617

  const RATE: nat := 4
  const CAPACITY: nat := 1
  const OUTPUT_POSITION: nat := 1

  type Field = x: int | 0 <= x < BN254_FIELD_SIZE

  /** A capacity cell and four rate cells, each reduced modulo the field size. */
  type State = s: seq<Field> | |s| == 5 witness [0, 0, 0, 0, 0]

  type Permutation = State -> State

  const ZERO_STATE: State := [0, 0, 0, 0, 0]

  // ---------- Reference: a fold over blocks ----------

  function Pad(part: seq<int>): (block: seq<int>)
    requires |part| <= RATE
    ensures |block| == RATE
  {
    part + [0, 0, 0, 0][..RATE - |part|]
  }

  function Blocks(msg: seq<int>): (blocks: seq<seq<int>>)
    ensures forall b <- blocks :: |b| == RATE
  {
    if msg == [] then []
    else if |msg| < RATE then [Pad(msg)]
    else [msg[..RATE]] + Blocks(msg[RATE..])
  }

  /** Addition in the field. */
  function Plus(x: Field, m: int): Field {
    (x + m) % BN254_FIELD_SIZE
  }

  /** JavaScript's remainder takes the sign of the dividend. */
  function JsRemainder(a: int, b: nat): int
    requires b > 0
  {
    if a >= 0 then a % b else -((-a) % b)
  }

  /** `F.e`: the residue of an integer. */
  function Residue(x: int): Field {
    x % BN254_FIELD_SIZE
  }

  function Residues(cells: seq<int>): State
    requires |cells| == 5
  {
    [Residue(cells[0]), Residue(cells[1]), Residue(cells[2]), Residue(cells[3]), Residue(cells[4])]
  }

  function AddBlock(s: State, block: seq<int>): State
    requires |block| == RATE
  {
    [s[0], Plus(s[1], block[0]), Plus(s[2], block[1]), Plus(s[3], block[2]), Plus(s[4], block[3])]
  }

  function Absorb(perm: Permutation, blocks: seq<seq<int>>): State
    requires forall b <- blocks :: |b| == RATE
  {
    if blocks == [] then ZERO_STATE
    else perm(AddBlock(Absorb(perm, blocks[..|blocks| - 1]), blocks[|blocks| - 1]))
  }

  function Sponge(perm: Permutation, msg: seq<int>): Field {
    Absorb(perm, Blocks(msg))[OUTPUT_POSITION]
  }

  // ---------- What the blocks are ----------

  lemma {:induction false} BlocksCount(msg: seq<int>)
    ensures |Blocks(msg)| == (|msg| + RATE - 1) / RATE
  {
    if |msg| >= RATE {
      BlocksCount(msg[RATE..]);
    }
  }

  lemma {:induction false} BlocksSplit(whole: seq<int>, part: seq<int>)
    requires |whole| % RATE == 0 && 0 < |part| <= RATE
    ensures Blocks(whole + part) == Blocks(whole) + [Pad(part)]
    decreases |whole|
  {
    var msg := whole + part;
    if whole == [] {
      assert msg == part;
      if |part| == RATE {
        assert part[..RATE] == part == Pad(part) && part[RATE..] == [];
        assert Blocks([]) == [];
      }
    } else {
      assert msg[..RATE] == whole[..RATE] && msg[RATE..] == whole[RATE..] + part;
      BlocksSplit(whole[RATE..], part);
    }
  }

  lemma AbsorbSnoc(perm: Permutation, blocks: seq<seq<int>>, block: seq<int>)
    requires forall b <- blocks :: |b| == RATE
    requires |block| == RATE
    ensures Absorb(perm, blocks + [block]) == perm(AddBlock(Absorb(perm, blocks), block))
  {
    assert (blocks + [block])[..|blocks|] == blocks;
  }

  lemma AbsorbAnother(perm: Permutation, whole: seq<int>, part: seq<int>)
    requires |whole| % RATE == 0 && 0 < |part| <= RATE
    ensures Absorb(perm, Blocks(whole + part)) == perm(AddBlock(Absorb(perm, Blocks(whole)), Pad(part)))
    ensures |Blocks(whole + part)| == |Blocks(whole)| + 1
  {
    BlocksSplit(whole, part);
    AbsorbSnoc(perm, Blocks(whole), Pad(part));
  }

  /** b continues a with zeros. */
  ghost predicate ZeroExtends(a: seq<int>, b: seq<int>) {
    a <= b && forall i :: |a| <= i < |b| ==> b[i] == 0
  }

  lemma PadsEqual(a: seq<int>, b: seq<int>)
    requires |a| <= |b| <= RATE
    ensures Pad(a) == Pad(b) <==> ZeroExtends(a, b)
  {
    if Pad(a) == Pad(b) {
      assert a == Pad(a)[..|a|] == b[..|a|];
      assert forall i :: |a| <= i < |b| ==> Pad(b)[i] == b[i];
    }
  }

  lemma BlocksStep(msg: seq<int>)
    requires msg != []
    ensures |msg| <= RATE ==> Blocks(msg) == [Pad(msg)]
    ensures |msg| > RATE ==> Blocks(msg) == [msg[..RATE]] + Blocks(msg[RATE..])
  {
    if |msg| == RATE {
      assert msg[..RATE] == msg == Pad(msg) && msg[RATE..] == [];
      assert Blocks([]) == [];
    }
  }

  lemma ZeroExtendsSplit(a: seq<int>, b: seq<int>, n: nat)
    requires n <= |a| <= |b|
    ensures ZeroExtends(a, b) <==> a[..n] == b[..n] && ZeroExtends(a[n..], b[n..])
  {
    assert a == a[..n] + a[n..] && b == b[..n] + b[n..];
    assert forall i :: n <= i < |b| ==> b[n..][i - n] == b[i];
    assert forall i :: 0 <= i < |b| - n ==> b[n..][i] == b[i + n];
  }

  lemma SplitEqual(x: seq<int>, xs: seq<seq<int>>, y: seq<int>, ys: seq<seq<int>>)
    ensures [x] + xs == [y] + ys <==> x == y && xs == ys
  {
    assert ([x] + xs)[0] == x && ([x] + xs)[1..] == xs;
    assert ([y] + ys)[0] == y && ([y] + ys)[1..] == ys;
  }

  /**
   * The length is not part of the hash. Exactly the messages that fill as many blocks, the longer
   * of them continuing the shorter with zeros, are absorbed as the same blocks.
   */
  lemma {:induction false} BlocksEqualIff(a: seq<int>, b: seq<int>)
    requires |a| <= |b|
    ensures Blocks(a) == Blocks(b)
       <==> (|a| + RATE - 1) / RATE == (|b| + RATE - 1) / RATE && ZeroExtends(a, b)
    decreases |a|
  {
    BlocksCount(a);
    BlocksCount(b);
    if a != [] && |Blocks(a)| == |Blocks(b)| {
      BlocksStep(a);
      BlocksStep(b);
      hide Blocks, Pad;
      if |a| <= RATE {
        PadsEqual(a, b);
      } else {
        BlocksEqualIff(a[RATE..], b[RATE..]);
        ZeroExtendsSplit(a, b, RATE);
        SplitEqual(a[..RATE], Blocks(a[RATE..]), b[..RATE], Blocks(b[RATE..]));
        hide ZeroExtends;
      }
    }
  }

  /** Messages of one length are told apart by their blocks. */
  lemma BlocksInjective(a: seq<int>, b: seq<int>)
    requires |a| == |b| && Blocks(a) == Blocks(b)
    ensures a == b
  {
    BlocksEqualIff(a, b);
  }

  /** A zero that only completes the last block goes unnoticed, whatever the permutation. */
  lemma TrailingZeroIsPadding(perm: Permutation, msg: seq<int>)
    requires |msg| % RATE != 0
    ensures Sponge(perm, msg + [0]) == Sponge(perm, msg)
  {
    BlocksEqualIff(msg, msg + [0]);
    hide Blocks;
    SameBlockCount(|msg|);
    assert ZeroExtends(msg, msg + [0]);
  }

  lemma SameBlockCount(n: nat)
    requires n % RATE != 0
    ensures (n + 1 + RATE - 1) / RATE == (n + RATE - 1) / RATE
  {
  }

  lemma EmptyMessage(perm: Permutation)
    ensures Sponge(perm, []) == 0
  {
    assert Blocks([]) == [];
  }

  // ---------- Which cells take part ----------

  function Cell(msg: seq<int>, i: nat): Field {
    if i < |msg| then msg[i] % 21888242871839275222246405745257275088548364400416034343698204186575808495617 else 0
  }

  /**
   * Up to four elements are absorbed at once: they are reduced into the cells behind the first one,
   * which stays 0, zeros fill up, and the digest is cell 1 of the permuted state.
   */
  lemma OneBlock(perm: Permutation, msg: seq<int>)
    requires 1 <= |msg| <= 4
    ensures Sponge(perm, msg) == perm([0, Cell(msg, 0), Cell(msg, 1), Cell(msg, 2), Cell(msg, 3)])[1]
  {
    BlocksStep(msg);
    assert [Pad(msg)][..0] == [];
    assert Absorb(perm, [Pad(msg)]) == perm(AddBlock(ZERO_STATE, Pad(msg)));
    var b := Pad(msg);
    assert forall i :: 0 <= i < 4 ==> b[i] == if i < |msg| then msg[i] else 0;
  }

  /** The elements at indices 0, 4, 8 and so on. */
  function EveryFourth(msg: seq<int>): int
    decreases |msg|
  {
    if msg == [] then 0 else msg[0] + EveryFourth(if |msg| <= 4 then [] else msg[4..])
  }

  function FirstCells(blocks: seq<seq<int>>): int
    requires forall b <- blocks :: |b| == RATE
  {
    if blocks == [] then 0 else FirstCells(blocks[..|blocks| - 1]) + blocks[|blocks| - 1][0]
  }

  lemma {:induction false} FirstCellsCons(block: seq<int>, blocks: seq<seq<int>>)
    requires |block| == RATE && forall b <- blocks :: |b| == RATE
    ensures FirstCells([block] + blocks) == block[0] + FirstCells(blocks)
    decreases |blocks|
  {
    var all := [block] + blocks;
    if blocks == [] {
      assert all[..0] == [];
    } else {
      assert all[..|all| - 1] == [block] + blocks[..|blocks| - 1];
      FirstCellsCons(block, blocks[..|blocks| - 1]);
    }
  }

  lemma {:induction false} FirstCellsOfBlocks(msg: seq<int>)
    ensures FirstCells(Blocks(msg)) == EveryFourth(msg)
    decreases |msg|
  {
    if msg != [] {
      BlocksStep(msg);
      if |msg| <= 4 {
        FirstCellsCons(Pad(msg), []);
        assert [Pad(msg)] + [] == [Pad(msg)];
      } else {
        FirstCellsOfBlocks(msg[4..]);
        FirstCellsCons(msg[..4], Blocks(msg[4..]));
      }
    }
  }

  lemma {:induction false} IdentityAbsorbs(blocks: seq<seq<int>>)
    requires forall b <- blocks :: |b| == RATE
    ensures Absorb(s => s, blocks)[1] == FirstCells(blocks) % BN254_FIELD_SIZE
  {
    if blocks != [] {
      var init, b := blocks[..|blocks| - 1], blocks[|blocks| - 1];
      IdentityAbsorbs(init);
      AbsorbSnoc(s => s, init, b);
      assert blocks == init + [b];
      ResidueOfSum(FirstCells(init), b[0]);
    }
  }

  /** Under the identity permutation the digest is the sum of every fourth element, in the field. */
  lemma IdentityDigest(msg: seq<int>)
    ensures Sponge(s => s, msg)
         == EveryFourth(msg) % 21888242871839275222246405745257275088548364400416034343698204186575808495617
  {
    IdentityAbsorbs(Blocks(msg));
    FirstCellsOfBlocks(msg);
  }

  // ---------- The loops ----------

  lemma PlusZero(x: Field)
    ensures Plus(x, 0) == x
  {
  }

  lemma AddToFreeCell(base: State, block: seq<int>, c: nat, m: int)
    requires |block| == RATE && c < RATE && block[c] == 0
    ensures AddBlock(base, block)[c + 1] == base[c + 1]
    ensures AddBlock(base, block)[c + 1 := Plus(base[c + 1], m)] == AddBlock(base, block[c := m])
  {
    PlusZero(base[c + 1]);
    hide Plus;
    assert c == 0 || c == 1 || c == 2 || c == 3;
  }

  /** Adding to one rate cell extends the partly filled block by one element. */
  lemma AddElement(base: State, part: seq<int>, s: State, m: int)
    requires |part| < RATE && s == AddBlock(base, Pad(part))
    ensures s[CAPACITY + |part| := (s[CAPACITY + |part|] + m) % BN254_FIELD_SIZE] == AddBlock(base, Pad(part + [m]))
  {
    hide AddBlock;
    assert Pad(part + [m]) == Pad(part)[|part| := m];
    AddToFreeCell(base, Pad(part), |part|, m);
    assert Plus(base[CAPACITY + |part|], m) == (s[CAPACITY + |part|] + m) % BN254_FIELD_SIZE;
  }

  lemma EmptyBlock(base: State)
    ensures AddBlock(base, Pad([])) == base
  {
    assert Pad([]) == [0, 0, 0, 0];
    PlusZero(base[1]);
    PlusZero(base[2]);
    PlusZero(base[3]);
    PlusZero(base[4]);
    hide Plus;
  }

  /** The state after k elements, the last i of which are added but not yet permuted. */
  ghost predicate Absorbed(perm: Permutation, msg: seq<int>, k: nat, i: nat, s: State) {
    && i < RATE && i <= k <= |msg| && (k - i) % RATE == 0
    && s == AddBlock(Absorb(perm, Blocks(msg[..k - i])), Pad(msg[k - i..k]))
  }

  function AfterElement(s: State, i: nat, m: int): State
    requires i < RATE
  {
    s[CAPACITY + i := (s[CAPACITY + i] + m) % BN254_FIELD_SIZE]
  }

  lemma AbsorbedAtStart(perm: Permutation, msg: seq<int>)
    ensures Absorbed(perm, msg, 0, 0, ZERO_STATE)
  {
    assert msg[..0] == [] && msg[0..0] == [];
    assert Blocks([]) == [];
    EmptyBlock(ZERO_STATE);
  }

  lemma AbsorbedElement(perm: Permutation, msg: seq<int>, k: nat, i: nat, s: State)
    requires Absorbed(perm, msg, k, i, s) && k < |msg| && i + 1 < RATE
    ensures Absorbed(perm, msg, k + 1, i + 1, AfterElement(s, i, msg[k]))
  {
    hide AddBlock, Pad, Absorb, Blocks;
    AddElement(Absorb(perm, Blocks(msg[..k - i])), msg[k - i..k], s, msg[k]);
    assert msg[k - i..k + 1] == msg[k - i..k] + [msg[k]];
  }

  lemma AbsorbedBlock(perm: Permutation, msg: seq<int>, k: nat, i: nat, s: State)
    requires Absorbed(perm, msg, k, i, s) && k < |msg| && i + 1 == RATE
    ensures Absorbed(perm, msg, k + 1, 0, perm(AfterElement(s, i, msg[k])))
  {
    hide AddBlock, Pad, Absorb, Blocks;
    var whole, part := msg[..k - i], msg[k - i..k + 1];
    AddElement(Absorb(perm, Blocks(whole)), msg[k - i..k], s, msg[k]);
    assert part == msg[k - i..k] + [msg[k]];
    AbsorbAnother(perm, whole, part);
    assert msg[..k + 1] == whole + part && msg[k + 1..k + 1] == [];
    EmptyBlock(Absorb(perm, Blocks(whole + part)));
  }

  lemma AbsorbedAll(perm: Permutation, msg: seq<int>, i: nat, s: State)
    requires Absorbed(perm, msg, |msg|, i, s)
    ensures (if i != 0 then perm(s) else s)[OUTPUT_POSITION] == Sponge(perm, msg)
  {
    hide AddBlock, Pad, Absorb, Blocks;
    var whole, part := msg[..|msg| - i], msg[|msg| - i..];
    assert msg == whole + part && part == msg[|msg| - i..|msg|];
    if i != 0 {
      AbsorbAnother(perm, whole, part);
    } else {
      EmptyBlock(Absorb(perm, Blocks(msg)));
      assert part == [] && whole == msg;
    }
  }

  lemma JsRemainderIsCongruent(v: int)
    ensures Residue(JsRemainder(v, BN254_FIELD_SIZE)) == Residue(v)
  {
    if v < 0 {
      var p, q := BN254_FIELD_SIZE, (-v) / BN254_FIELD_SIZE;
      ResidueIs(-((-v) % p), v / p + q, v % p);
    }
  }

  lemma ResidueIs(x: int, k: int, t: Field)
    requires x == k * BN254_FIELD_SIZE + t
    ensures Residue(x) == t
  {
  }

  lemma ResidueOfSum(x: int, m: int)
    ensures Residue(x + m) == Residue(Residue(x) + m)
  {
  }

  /** Adding in place, with the remainder JavaScript takes, adds in the field. */
  lemma CellResidue(x: int, m: int)
    ensures Residue(JsRemainder(x + m, BN254_FIELD_SIZE)) == (Residue(x) + m) % BN254_FIELD_SIZE
    ensures x >= 0 && m >= 0 ==> 0 <= JsRemainder(x + m, BN254_FIELD_SIZE) < BN254_FIELD_SIZE
  {
    JsRemainderIsCongruent(x + m);
    ResidueOfSum(x, m);
  }

  lemma ResiduesAfterElement(cells: seq<int>, i: nat, m: int)
    requires |cells| == 5 && i < RATE
    ensures Residues(cells[CAPACITY + i := JsRemainder(cells[CAPACITY + i] + m, BN254_FIELD_SIZE)])
         == AfterElement(Residues(cells), i, m)
  {
    CellResidue(cells[CAPACITY + i], m);
    hide Residue, JsRemainder;
  }

  lemma ResiduesOfState(s: State)
    ensures Residues(s) == s
  {
  }

  /** `poseidonSponge` of the aggregator, with the number of permutations it makes. */
  method PoseidonSponge(perm: Permutation, msg: seq<int>) returns (digest: Field, ghost permutations: nat)
    ensures digest == Sponge(perm, msg)
    ensures permutations == |Blocks(msg)| == (|msg| + RATE - 1) / RATE
  {
    hide Absorbed, Blocks;
    var state := new int[5](_ => 0);
    var i := 0;
    permutations := 0;
    AbsorbedAtStart(perm, msg);
    assert state[..] == ZERO_STATE;
    ResiduesOfState(ZERO_STATE);
    assert InField(state[..]);
    hide Residues, JsRemainder, AfterElement, Residue, InField;
    for k := 0 to |msg|
      invariant state.Length == 5 && fresh(state)
      invariant i < RATE && RATE * permutations == k - i
      invariant Absorbed(perm, msg, k, i, Residues(state[..]))
      invariant (i == 0 || forall m <- msg :: m >= 0) ==> InField(state[..])
    {
      ghost var before := state[..];
      assert msg[k] in msg;
      AddInPlace(state, i, msg[k]);
      i := i + 1;
      if i == RATE {
        AbsorbedBlock(perm, msg, k, i - 1, Residues(before));
        state := Permute(perm, state);
        permutations := permutations + 1;
        i := 0;
      } else {
        AbsorbedElement(perm, msg, k, i - 1, Residues(before));
      }
    }
    BlocksCount(msg);
    AbsorbedAll(perm, msg, i, Residues(state[..]));
    if i != 0 {
      state := Permute(perm, state);
      permutations := permutations + 1;
    }
    ResiduesInField(state[..]);
    digest := state[OUTPUT_POSITION];
  }

  method AddInPlace(state: array<int>, i: nat, m: int)
    requires state.Length == 5 && i < RATE
    modifies state
    ensures Residues(state[..]) == AfterElement(old(Residues(state[..])), i, m)
    ensures m >= 0 && InField(old(state[..])) ==> InField(state[..])
  {
    ghost var before := state[..];
    CellResidue(before[CAPACITY + i], m);
    var idx := CAPACITY + i;
    ResiduesAfterElement(before, i, m);
    state[idx] := JsRemainder(state[idx] + m, BN254_FIELD_SIZE);
    assert state[..] == before[idx := JsRemainder(before[idx] + m, BN254_FIELD_SIZE)];
  }

  predicate InField(cells: seq<int>) {
    forall c :: 0 <= c < |cells| ==> 0 <= cells[c] < BN254_FIELD_SIZE
  }

  lemma ResiduesInField(cells: seq<int>)
    requires |cells| == 5 && InField(cells)
    ensures Residues(cells) == cells
  {
  }

  method Permute(perm: Permutation, state: array<int>) returns (permuted: array<int>)
    requires state.Length == 5
    ensures fresh(permuted) && permuted.Length == 5
    ensures permuted[..] == perm(Residues(state[..])) == Residues(permuted[..])
    ensures InField(permuted[..])
  {
    var next := perm(Residues(state[..]));
    permuted := new int[5](c requires 0 <= c < 5 => next[c]);
    assert permuted[..] == next;
    ResiduesOfState(next);
  }

  /** `poseidon_sponge` of the edge device: the same absorption on a list that is replaced. */
  method EdgePoseidonSponge(perm: Permutation, msg: seq<int>) returns (digest: Field)
    ensures digest == Sponge(perm, msg)
  {
    hide Absorbed;
    var state: State := ZERO_STATE;
    var i, k := 0, 0;
    AbsorbedAtStart(perm, msg);
    while k < |msg|
      invariant 0 <= i < RATE && k <= |msg| && Absorbed(perm, msg, k, i, state)
    {
      ghost var before := state;
      state := state[CAPACITY + i := (state[CAPACITY + i] + msg[k]) % BN254_FIELD_SIZE];
      i := i + 1;
      if i == RATE {
        AbsorbedBlock(perm, msg, k, i - 1, before);
        state := perm(state);
        i := 0;
      } else {
        AbsorbedElement(perm, msg, k, i - 1, before);
      }
      k := k + 1;
    }
    AbsorbedAll(perm, msg, i, state);
    if i != 0 {
      state := perm(state);
    }
    return state[OUTPUT_POSITION];
  }
}
